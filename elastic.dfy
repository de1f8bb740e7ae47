/** The elastic-region extractor: from the points strictly before the peak,
    keep those whose stress is strictly above a threshold, in curve order. */
module Elastic {

  /** The default elastic threshold, 1.0e6 Pa. */
  const ElasticThreshold: real := 1000000.0

  ghost predicate StrictlyIncreasing(idx: seq<nat>) {
    forall j, k :: 0 <= j < k < |idx| ==> idx[j] < idx[k]
  }

  /** The indices kept from the first `n` points: exactly those whose stress
      exceeds the threshold, in increasing order. */
  function Selected(stress: seq<real>, n: nat, threshold: real): (idx: seq<nat>)
    requires n <= |stress|
    ensures Selects(stress, n, threshold, idx)
    decreases n
  {
    if n == 0 then []
    else
      var rest := Selected(stress, n - 1, threshold);
      if stress[n - 1] > threshold then rest + [n - 1] else rest
  }

  /** The region never holds more points than the prefix it is drawn from. */
  lemma {:induction false} SelectedCount(stress: seq<real>, n: nat, threshold: real)
    requires n <= |stress|
    ensures |Selected(stress, n, threshold)| <= n
    decreases n
  {
    if n > 0 {
      SelectedCount(stress, n - 1, threshold);
    }
  }

  /** `idx` lists, in increasing order, exactly the indices below `n` whose
      stress exceeds the threshold. */
  ghost predicate Selects(stress: seq<real>, n: nat, threshold: real, idx: seq<nat>)
    requires n <= |stress|
  {
    && (forall j :: 0 <= j < |idx| ==> idx[j] < n)
    && (forall i :: 0 <= i < n ==> (i in idx <==> stress[i] > threshold))
    && StrictlyIncreasing(idx)
  }

  /** When the last point of the prefix qualifies, it closes the list and the
      rest selects from the shorter prefix. */
  lemma SelectsKept(stress: seq<real>, n: nat, threshold: real, idx: seq<nat>)
    requires 0 < n <= |stress| && stress[n - 1] > threshold
    requires Selects(stress, n, threshold, idx)
    ensures |idx| > 0 && idx[|idx| - 1] == n - 1
    ensures Selects(stress, n - 1, threshold, idx[..|idx| - 1])
  {
  }

  /** When the last point of the prefix does not qualify, the same list
      selects from the shorter prefix. */
  lemma SelectsSkipped(stress: seq<real>, n: nat, threshold: real, idx: seq<nat>)
    requires 0 < n <= |stress| && !(stress[n - 1] > threshold)
    requires Selects(stress, n, threshold, idx)
    ensures Selects(stress, n - 1, threshold, idx)
  {
  }

  /** Names the first element of a bounded list, so that the empty-prefix case
      of `SelectedUnique` can conclude the list is empty. */
  lemma FirstBelow(idx: seq<nat>, n: nat)
    requires forall j :: 0 <= j < |idx| ==> idx[j] < n
    ensures |idx| > 0 ==> idx[0] < n
  {
  }

  /** Any increasing list of indices below `n` that holds exactly the points
      above the threshold is the selection: the region is determined by the
      filter alone. */
  lemma {:induction false} SelectedUnique(stress: seq<real>, n: nat, threshold: real, idx: seq<nat>)
    requires n <= |stress|
    requires Selects(stress, n, threshold, idx)
    ensures idx == Selected(stress, n, threshold)
    decreases n, 1
  {
    if n == 0 {
      FirstBelow(idx, n);
    } else if stress[n - 1] > threshold {
      SelectedUniqueKept(stress, n, threshold, idx);
    } else {
      SelectedUniqueSkipped(stress, n, threshold, idx);
    }
  }

  lemma {:induction false} SelectedUniqueKept(stress: seq<real>, n: nat, threshold: real, idx: seq<nat>)
    requires 0 < n <= |stress| && stress[n - 1] > threshold
    requires Selects(stress, n, threshold, idx)
    ensures idx == Selected(stress, n, threshold)
    decreases n, 0
  {
    SelectsKept(stress, n, threshold, idx);
    var front := idx[..|idx| - 1];
    SelectedUnique(stress, n - 1, threshold, front);
    assert idx == front + [n - 1];
  }

  lemma {:induction false} SelectedUniqueSkipped(stress: seq<real>, n: nat, threshold: real, idx: seq<nat>)
    requires 0 < n <= |stress| && !(stress[n - 1] > threshold)
    requires Selects(stress, n, threshold, idx)
    ensures idx == Selected(stress, n, threshold)
    decreases n, 0
  {
    SelectsSkipped(stress, n, threshold, idx);
    SelectedUnique(stress, n - 1, threshold, idx);
  }

  /** The extraction loop: walks the indices before `peakIndex` and appends
      the aligned (strain, stress) pair whenever stress exceeds `threshold`. */
  method ExtractElastic(strain: seq<real>, stress: seq<real>, peakIndex: nat, threshold: real)
    returns (strainReg: seq<real>, stressReg: seq<real>)
    requires peakIndex <= |strain| && peakIndex <= |stress|
    ensures |strainReg| == |stressReg| == |Selected(stress, peakIndex, threshold)|
    ensures forall j :: 0 <= j < |stressReg| ==>
      var i := Selected(stress, peakIndex, threshold)[j];
      strainReg[j] == strain[i] && stressReg[j] == stress[i]
    ensures forall j :: 0 <= j < |stressReg| ==> stressReg[j] > threshold
  {
    strainReg, stressReg := [], [];
    for i := 0 to peakIndex
      invariant |strainReg| == |stressReg| == |Selected(stress, i, threshold)|
      invariant forall j :: 0 <= j < |stressReg| ==>
        strainReg[j] == strain[Selected(stress, i, threshold)[j]] &&
        stressReg[j] == stress[Selected(stress, i, threshold)[j]]
    {
      if stress[i] > threshold {
        strainReg := strainReg + [strain[i]];
        stressReg := stressReg + [stress[i]];
      }
    }
    forall j | 0 <= j < |stressReg|
      ensures stressReg[j] > threshold
    {
      var sel := Selected(stress, peakIndex, threshold);
      assert sel[j] in sel;
    }
  }
}
