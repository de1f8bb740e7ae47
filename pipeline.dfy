/** One material's analysis run, and the script's two runs in sequence:
    load the curve, find the ultimate tensile point, extract the elastic
    region before it. */
module Pipeline {
  import opened Samples
  import opened Peak
  import opened Elastic

  /** The two ways the script stops: indexing the first stress value of a
      file with no data records, and fitting a line to an empty elastic
      region (the least-squares routine rejects an empty input). */
  datatype Error = EmptyInput(material: Material) | EmptyRegion(material: Material)

  datatype Result<T> = Ok(value: T) | Err(error: Error)

  /** A loaded curve with its ultimate tensile point. */
  datatype Curve = Curve(strain: seq<real>, stress: seq<real>, peakIndex: nat, peakStress: real)

  /** A curve with the elastic region drawn from it. */
  datatype Analysis = Analysis(curve: Curve, strainReg: seq<real>, stressReg: seq<real>)

  /** `c` is the curve of material `m` built from `rows`, with its peak at the
      first maximum of the stress column. */
  ghost predicate Measured(m: Material, rows: seq<Record>, c: Curve) {
    && |c.strain| == |c.stress| == DataCount(rows) > 0
    && c.stress == StressCurve(rows, GeometryOf(m))
    && (forall i :: 0 <= i < |c.strain| ==> c.strain[i] == StrainOf(rows[i + 1], GeometryOf(m)))
    && c.peakIndex == PeakIndex(c.stress)
    && c.peakStress == c.stress[c.peakIndex]
  }

  /** `a` holds the curve of `rows` and, aligned and in curve order, exactly
      the pre-peak points above the elastic threshold; there is at least one. */
  ghost predicate Analyzed(m: Material, rows: seq<Record>, a: Analysis) {
    var c := a.curve;
    && Measured(m, rows, c)
    && var sel := Selected(c.stress, c.peakIndex, ElasticThreshold);
    && |a.strainReg| == |a.stressReg| == |sel| > 0
    && (forall j :: 0 <= j < |sel| ==>
          a.strainReg[j] == c.strain[sel[j]] && a.stressReg[j] == c.stress[sel[j]])
    && (forall j :: 0 <= j < |sel| ==> ElasticThreshold < a.stressReg[j] < c.peakStress)
  }

  /** The elastic region of material `m`'s data is non-empty. */
  ghost predicate HasElasticRegion(m: Material, rows: seq<Record>)
    requires DataCount(rows) > 0
  {
    var stress := StressCurve(rows, GeometryOf(m));
    |Selected(stress, PeakIndex(stress), ElasticThreshold)| > 0
  }

  /** The stress curve peaks where the raw force column peaks: the ultimate
      tensile point does not depend on the cross-sectional area. */
  lemma PeakOfForces(rows: seq<Record>, g: Geometry)
    requires g.Valid() && DataCount(rows) > 0
    ensures PeakIndex(StressCurve(rows, g)) == PeakIndex(Forces(rows))
  {
    var s, f := StressCurve(rows, g), Forces(rows);
    var k := PeakIndex(f);
    forall j | 0 <= j < |s|
      ensures s[j] <= s[k] && (j < k ==> s[j] < s[k])
    {
      assert f[j] <= f[k] && (j < k ==> f[j] < f[k]);
      assert s[j] == StressOf(rows[j + 1], g) && s[k] == StressOf(rows[k + 1], g);
      StressOrderPreserved(rows[j + 1], rows[k + 1], g);
    }
    FirstMaxUnique(s, k, PeakIndex(s));
  }

  /** Every point of the elastic region lies strictly before the ultimate
      tensile point and strictly below its stress; the peak point itself is
      never part of the region, and a peak at index 0 leaves it empty. */
  lemma ElasticBelowUltimate(stress: seq<real>, threshold: real)
    requires |stress| > 0
    ensures var k := PeakIndex(stress);
      && k !in Selected(stress, k, threshold)
      && (k == 0 ==> Selected(stress, k, threshold) == [])
      && forall j :: 0 <= j < |Selected(stress, k, threshold)| ==>
           threshold < stress[Selected(stress, k, threshold)[j]] < stress[k]
  {
  }

  /** Loading and peak finding for one material (lines 19-30 and 46-51 for PLA). */
  method Measure(m: Material, rows: seq<Record>) returns (r: Result<Curve>)
    ensures r.Err? <==> DataCount(rows) == 0
    ensures r.Err? ==> r.error == EmptyInput(m)
    ensures r.Ok? ==> Measured(m, rows, r.value) && r.value.peakIndex == PeakIndex(Forces(rows))
  {
    var g := GeometryOf(m);
    var strain, stress := LoadCurve(rows, g);
    if |stress| == 0 {
      return Err(EmptyInput(m));
    }
    var peakStress, peakIndex := FindPeak(stress);
    PeakOfForces(rows, g);
    r := Ok(Curve(strain, stress, peakIndex, peakStress));
  }

  /** Elastic-region extraction for one measured curve (lines 70-76 for PLA);
      an empty region stops the run at the line fit. */
  method Extract(m: Material, ghost rows: seq<Record>, c: Curve) returns (r: Result<Analysis>)
    requires Measured(m, rows, c)
    ensures r.Err? <==> !HasElasticRegion(m, rows)
    ensures r.Err? ==> r.error == EmptyRegion(m)
    ensures r.Ok? ==> Analyzed(m, rows, r.value) && r.value.curve == c
  {
    var strainReg, stressReg := ExtractElastic(c.strain, c.stress, c.peakIndex, ElasticThreshold);
    ElasticBelowUltimate(c.stress, ElasticThreshold);
    if |stressReg| == 0 {
      return Err(EmptyRegion(m));
    }
    r := Ok(Analysis(c, strainReg, stressReg));
  }

  /** One material's pipeline: load, find the peak, extract the region. */
  method Analyze(m: Material, rows: seq<Record>) returns (r: Result<Analysis>)
    ensures DataCount(rows) == 0 ==> r == Err(EmptyInput(m))
    ensures DataCount(rows) > 0 && !HasElasticRegion(m, rows) ==> r == Err(EmptyRegion(m))
    ensures r.Ok? <==> DataCount(rows) > 0 && HasElasticRegion(m, rows)
    ensures r.Ok? ==> Analyzed(m, rows, r.value)
  {
    var c := Measure(m, rows);
    if c.Err? {
      return Err(c.error);
    }
    r := Extract(m, rows, c.value);
  }

  /** The script's order: both files are loaded and both peaks found before
      either region is fitted, PLA before ABS at each stage; the first failure
      stops the run. */
  method AnalyzeBoth(plaRows: seq<Record>, absRows: seq<Record>)
    returns (r: Result<(Analysis, Analysis)>)
    ensures DataCount(plaRows) == 0 ==> r == Err(EmptyInput(PLA))
    ensures DataCount(plaRows) > 0 && DataCount(absRows) == 0 ==> r == Err(EmptyInput(ABS))
    ensures DataCount(plaRows) > 0 && DataCount(absRows) > 0 && !HasElasticRegion(PLA, plaRows) ==>
      r == Err(EmptyRegion(PLA))
    ensures (DataCount(plaRows) > 0 && DataCount(absRows) > 0 && HasElasticRegion(PLA, plaRows)
             && !HasElasticRegion(ABS, absRows)) ==> r == Err(EmptyRegion(ABS))
    ensures r.Ok? <==> (DataCount(plaRows) > 0 && DataCount(absRows) > 0
                        && HasElasticRegion(PLA, plaRows) && HasElasticRegion(ABS, absRows))
    ensures r.Ok? ==> Analyzed(PLA, plaRows, r.value.0) && Analyzed(ABS, absRows, r.value.1)
  {
    var pla := Measure(PLA, plaRows);
    if pla.Err? {
      return Err(pla.error);
    }
    var abs := Measure(ABS, absRows);
    if abs.Err? {
      return Err(abs.error);
    }
    var plaRegion := Extract(PLA, plaRows, pla.value);
    if plaRegion.Err? {
      return Err(plaRegion.error);
    }
    var absRegion := Extract(ABS, absRows, abs.value);
    if absRegion.Err? {
      return Err(absRegion.error);
    }
    r := Ok((plaRegion.value, absRegion.value));
  }
}
