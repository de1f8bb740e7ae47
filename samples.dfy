/** Sample geometry and the conversion of raw tensile-test records into an
    engineering stress-strain curve (strain = displacement / gauge length,
    stress = force / cross-sectional area). */
module Samples {

  /** The two dogbone samples the analysis compares. */
  datatype Material = PLA | ABS

  /** Static geometry of one sample, in metres and square metres. */
  datatype Geometry = Geometry(crossArea: real, gaugeLength: real)
  {
    predicate Valid() {
      crossArea > 0.0 && gaugeLength > 0.0
    }
  }

  /** The geometry constants of each sample (thickness times width for the area). */
  function GeometryOf(m: Material): (g: Geometry)
    ensures g.Valid()
  {
    match m
    case PLA => Geometry(0.00248 * 0.00173, 0.02166)
    case ABS => Geometry(0.00249 * 0.00166, 0.02386)
  }

  /** One parsed record of the data file: the displacement (second field) and
      the force (third field). The first record of a file is its header; its
      values are never read. */
  datatype Record = Record(displacement: real, force: real)

  /** Number of data records, i.e. every record after the header. */
  function DataCount(rows: seq<Record>): nat {
    if |rows| == 0 then 0 else |rows| - 1
  }

  function StrainOf(r: Record, g: Geometry): real
    requires g.Valid()
  {
    r.displacement / g.gaugeLength
  }

  function StressOf(r: Record, g: Geometry): real
    requires g.Valid()
  {
    r.force / g.crossArea
  }

  /** The stress column of the curve built from `rows`. */
  function StressCurve(rows: seq<Record>, g: Geometry): seq<real>
    requires g.Valid()
  {
    seq(DataCount(rows), i requires 0 <= i < DataCount(rows) => StressOf(rows[i + 1], g))
  }

  /** The raw force column of the data records. */
  function Forces(rows: seq<Record>): seq<real> {
    seq(DataCount(rows), i requires 0 <= i < DataCount(rows) => rows[i + 1].force)
  }

  /** The conversion loop: skips the header record and appends one strain and
      one stress value per later record, in input order. */
  method LoadCurve(rows: seq<Record>, g: Geometry) returns (strain: seq<real>, stress: seq<real>)
    requires g.Valid()
    ensures |strain| == |stress| == DataCount(rows)
    ensures forall i :: 0 <= i < |strain| ==> strain[i] == rows[i + 1].displacement / g.gaugeLength
    ensures forall i :: 0 <= i < |stress| ==> stress[i] == rows[i + 1].force / g.crossArea
    ensures stress == StressCurve(rows, g)
  {
    strain, stress := [], [];
    var lineCount := 0;
    while lineCount < |rows|
      invariant 0 <= lineCount <= |rows|
      invariant |strain| == |stress| == DataCount(rows[..lineCount])
      invariant forall i :: 0 <= i < |strain| ==> strain[i] == StrainOf(rows[i + 1], g)
      invariant forall i :: 0 <= i < |stress| ==> stress[i] == StressOf(rows[i + 1], g)
    {
      var row := rows[lineCount];
      if lineCount == 0 {
        // the header record contributes nothing
      } else {
        strain := strain + [StrainOf(row, g)];
        stress := stress + [StressOf(row, g)];
      }
      lineCount := lineCount + 1;
    }
    assert rows[..lineCount] == rows;
  }

  /** Multiplying back by the geometry recovers the raw measurement. */
  lemma ConversionRoundTrip(r: Record, g: Geometry)
    requires g.Valid()
    ensures StrainOf(r, g) * g.gaugeLength == r.displacement
    ensures StressOf(r, g) * g.crossArea == r.force
  {
  }

  /** Dividing by the positive area keeps the order of forces, in both directions. */
  lemma StressOrderPreserved(a: Record, b: Record, g: Geometry)
    requires g.Valid()
    ensures StressOf(a, g) < StressOf(b, g) <==> a.force < b.force
    ensures StressOf(a, g) == StressOf(b, g) <==> a.force == b.force
  {
  }
}
