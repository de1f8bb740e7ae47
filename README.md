# Tensile-test stress-strain analysis — verified model

This project models the numeric core of `plot_generation.py`, a script that
turns the force/displacement records of two tensile tests (a PLA and an ABS
dogbone sample) into engineering stress-strain curves. It locates each
curve's ultimate tensile point and picks out the pre-peak elastic region
that the script fits a line to. The script writes each of its three loops
twice, once per material. The model writes each loop once and passes the
material's geometry and the threshold as parameters:

- `Samples` (`samples.dfy`): the two materials, their geometry constants,
  parsed records, and the header-skipping conversion loop `LoadCurve`.
  Strain is displacement / gauge length. Stress is force / cross-sectional area.
- `Peak` (`peak.dfy`): the running-maximum scan `FindPeak`. It is proved
  against `PeakIndex`, a left fold whose contract is `IsFirstMax`: the value
  at the index is at least every value, and every earlier value is strictly
  smaller.
- `Elastic` (`elastic.dfy`): the extraction loop `ExtractElastic`. It is
  proved against `Selected`, the increasing list of indices below the peak
  whose stress is strictly above the threshold (1.0e6 Pa, written `0.1E7`
  in the script).
- `Pipeline` (`pipeline.dfy`): one material's stages (`Measure` loads the
  curve and finds its peak, `Extract` draws the elastic region), `Analyze`
  composing them, and `AnalyzeBoth`, which follows the script's order: both
  files are loaded and both peaks found before either region is fitted, PLA
  before ABS at each stage. Lemmas relate the stages to each other.

Values are mathematical reals. The properties rely only on division by a
positive constant and on `>` comparisons.

Facts about the code that shape the model:
- The first record of each file is always skipped (lines 23-24), header or not.
- Both materials use the literal `0.1E7` as the elastic threshold (lines 73
  and 84). `ExtractElastic` takes the threshold as a parameter, and the
  pipeline passes `ElasticThreshold`.
- Line 46 reads `pla_stress[0]` (line 53 `abs_stress[0]`), which fails when
  a file has no data record. `FindPeak` requires a non-empty sequence, and
  `Measure` returns `Err(EmptyInput(material))` for that case.
- Line 76 (line 87 for ABS) passes the elastic region to the least-squares
  fit, which raises an error on an empty region and stops the script there.
  `Extract` returns `Err(EmptyRegion(material))` for that case. A peak at
  index 0 always leads there (`ElasticBelowUltimate`).

## Model

| member | source | states |
|---|---|---|
| `Samples.GeometryOf` | plot_generation.py:8-11 | each material's cross-sectional area and gauge length are positive, so the conversion divisions are defined |
| `Samples.LoadCurve` | plot_generation.py:21-28 | one strain and one stress value per record after the header, in input order; both lists have length row count minus one (0 for no rows); strain[i] = rows[i+1].displacement / gauge length and stress[i] = rows[i+1].force / area |
| `Samples.ConversionRoundTrip` | plot_generation.py:26-27 | multiplying strain by the gauge length and stress by the area recovers the raw displacement and force |
| `Samples.StressOrderPreserved` | plot_generation.py:27 | stress comparisons agree with force comparisons (strictly less, and equal), in both directions |
| `Peak.PeakIndex` | plot_generation.py:46-51 | the running scan, as a fold, yields an in-bounds index whose stress is ≥ every value, with every earlier value strictly smaller |
| `Peak.FirstMaxUnique` | plot_generation.py:49-51 | at most one index is the first occurrence of the maximum |
| `Peak.PeakIndexCharacterized` | plot_generation.py:46-51 | an index is the first maximum if and only if it is the scan's result |
| `Peak.PlateauKeepsPeak` | plot_generation.py:49-51 | appending a value equal to or below the running maximum leaves the peak index unchanged; a strictly greater value moves it to the new position |
| `Peak.FindPeak` | plot_generation.py:46-51 | for non-empty input: the returned index is in bounds, its stress is the returned maximum, no value exceeds it, every earlier value is strictly smaller, and it equals `PeakIndex` |
| `Elastic.Selected` | plot_generation.py:72-75 | the kept indices are below the peak index, strictly increasing, and an index below the peak is kept if and only if its stress exceeds the threshold |
| `Elastic.SelectedCount` | plot_generation.py:72-75 | the region has no more points than the prefix before the peak |
| `Elastic.SelectedUnique` | plot_generation.py:72-75 | any increasing index list with exactly that membership equals `Selected`, so order and contents of the region are fully determined |
| `Elastic.ExtractElastic` | plot_generation.py:70-75 | the two region lists have equal length; entry j is the (strain, stress) pair at the j-th selected index, so the lists stay aligned, keep curve order and drop no qualifying point; every kept stress exceeds the threshold |
| `Pipeline.PeakOfForces` | plot_generation.py:46-51 | the peak index of the stress curve equals the peak index of the raw force column |
| `Pipeline.ElasticBelowUltimate` | plot_generation.py:72-75 | the peak point is never in the region; a peak at index 0 gives an empty region; every region stress is strictly between the threshold and the peak stress |
| `Pipeline.Measure` | plot_generation.py:19-51 | fails with `EmptyInput(material)` exactly when there is no data record (the read of the first stress value); otherwise returns the converted curve with its peak at the first maximum of the stress column, which is also the force column's first maximum |
| `Pipeline.Extract` | plot_generation.py:70-76 | fails with `EmptyRegion(material)` exactly when no pre-peak point is above the threshold (the fit's rejection of an empty input); otherwise returns the curve with the aligned, ordered region of exactly the qualifying points, each strictly between threshold and peak stress |
| `Pipeline.Analyze` | plot_generation.py:19-76 | for one material: `EmptyInput` when there is no data record, else `EmptyRegion` when the region is empty, else Ok with the full analysis (`Analyzed`) |
| `Pipeline.AnalyzeBoth` | plot_generation.py:19-87 | errors in the script's order (PLA empty input, ABS empty input, PLA empty region, ABS empty region); Ok exactly when none occurs, and then both results satisfy `Analyzed` for their material and rows |

## Left out

- Opening the files and CSV/float parsing (lines 19-20, 26-27, 32-33, 39-40): records are taken as already parsed, so a malformed field is not modelled.
- The first-degree least-squares fit `np.polyfit` / `np.poly1d` and its `print` (lines 76-78, 87-89): this is a foreign floating-point routine with no visible source. Only its failure on an empty region is modelled (`EmptyRegion`); the coefficients it computes, and its behaviour on a one-point region, are not.
- All matplotlib drawing (lines 61-67, 79, 90, 93-101): rendering only, with no computation.
- The commented-out percent-elongation and ultimate-strength readouts (lines 103-120): not live code.
- The unused `scipy.interpolate` import (line 4).
- IEEE-754 rounding of the divisions: the model divides mathematical reals.
- `numpy.array` conversion of the lists (lines 29-30, 42-43): the model keeps sequences throughout.
