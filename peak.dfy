/** The peak finder: the index of the ultimate tensile point of a stress
    curve, found by a running-maximum scan that moves only on a strictly
    greater value, so the first occurrence of the maximum wins. */
module Peak {

  /** `k` is the first position of the largest value of `s`. */
  ghost predicate IsFirstMax(s: seq<real>, k: nat) {
    && k < |s|
    && (forall j :: 0 <= j < |s| ==> s[j] <= s[k])
    && (forall j :: 0 <= j < k ==> s[j] < s[k])
  }

  /** The scan as a left fold: the peak of a longer prefix moves to the new
      last element only when that element is strictly greater. */
  function PeakIndex(s: seq<real>): (k: nat)
    requires |s| > 0
    ensures IsFirstMax(s, k)
    decreases |s|
  {
    if |s| == 1 then 0
    else
      var k0 := PeakIndex(s[..|s| - 1]);
      if s[|s| - 1] > s[k0] then |s| - 1 else k0
  }

  /** At most one index is the first maximum, so the specification pins the
      scan's result down completely. */
  lemma FirstMaxUnique(s: seq<real>, k1: nat, k2: nat)
    requires IsFirstMax(s, k1) && IsFirstMax(s, k2)
    ensures k1 == k2
  {
    assert s[k1] == s[k2];
  }

  /** Both directions: the scan's result is the first maximum, and nothing else is. */
  lemma PeakIndexCharacterized(s: seq<real>, k: nat)
    requires |s| > 0
    ensures IsFirstMax(s, k) <==> k == PeakIndex(s)
  {
  }

  /** A later value equal to the peak (a plateau) never moves it; only a
      strictly greater one does. */
  lemma PlateauKeepsPeak(s: seq<real>, x: real)
    requires |s| > 0
    ensures x <= s[PeakIndex(s)] ==> PeakIndex(s + [x]) == PeakIndex(s)
    ensures x > s[PeakIndex(s)] ==> PeakIndex(s + [x]) == |s|
  {
  }

  /** The scan of the source: starts at index 0 (comparing the first value
      with itself) and replaces the running maximum on a strictly greater value. */
  method FindPeak(stress: seq<real>) returns (maxStress: real, maxIndex: nat)
    requires |stress| > 0
    ensures maxIndex < |stress| && maxStress == stress[maxIndex]
    ensures forall j :: 0 <= j < |stress| ==> stress[j] <= maxStress
    ensures forall j :: 0 <= j < maxIndex ==> stress[j] < maxStress
    ensures maxIndex == PeakIndex(stress)
  {
    maxStress := stress[0];
    maxIndex := 0;
    for i := 0 to |stress|
      invariant maxIndex < |stress| && maxStress == stress[maxIndex]
      invariant i > 0 ==> maxIndex == PeakIndex(stress[..i])
      invariant i == 0 ==> maxIndex == 0
    {
      if stress[i] > maxStress {
        maxStress := stress[i];
        maxIndex := i;
      }
      assert stress[..i + 1][..i] == stress[..i];
    }
    assert stress[..|stress|] == stress;
  }
}
