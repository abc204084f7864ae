/** The two bin-packing solvers side by side, as the approximation-ratio experiment
    runs them on the same items: the exhaustive search never uses more bins than
    First Fit, and First Fit uses fewer than 2W/C + 1 bins. */
module Comparison {
  import opened Bins
  import ExactSolver
  import FirstFit

  /** Runs the exhaustive search and First Fit on the same items. */
  method CompareSolvers(w: seq<real>, cap: real)
    returns (exact: Partition, exactBins: nat, greedy: Partition, greedyBins: nat)
    requires |w| >= 1 && NonNegative(w)
    ensures exactBins == |exact| && greedyBins == |greedy|
    ensures IsPartitionOf(exact, 0, |w|) && NonSingletonsFit(exact, w, cap)
    ensures IsPartitionOf(greedy, 0, |w|) && NonSingletonsFit(greedy, w, cap)
    ensures exactBins <= greedyBins <= |w|
    ensures BlocksInRange(greedy, |w|) && FirstFit.FirstFitRule(greedy, w, cap)
    ensures greedyBins >= 2 ==>
      FirstFit.Times(greedyBins - 1, cap) < 2.0 * FirstFit.PackedWeight(greedy, w)
  {
    greedy, greedyBins := Greedy(w, cap);
    exact, exactBins := Exact(w, cap);
    Compare(exactBins, greedy, w, cap);
  }

  /** First Fit on all the items, seen only through what the comparison needs. */
  method Greedy(w: seq<real>, cap: real) returns (greedy: Partition, greedyBins: nat)
    ensures greedyBins == |greedy| <= |w|
    ensures IsPartitionOf(greedy, 0, |w|) && NonSingletonsFit(greedy, w, cap)
    ensures BlocksInRange(greedy, |w|) && FirstFit.FirstFitRule(greedy, w, cap)
  {
    greedy, greedyBins := FirstFit.FirstFit(|w|, w, cap);
  }

  /** The exhaustive search on all the items, seen only through what the
      comparison needs: a valid packing no longer than any valid packing. */
  method Exact(w: seq<real>, cap: real) returns (exact: Partition, exactBins: nat)
    requires |w| >= 1 && NonNegative(w)
    ensures exactBins == |exact| <= |w|
    ensures IsPartitionOf(exact, 0, |w|) && NonSingletonsFit(exact, w, cap)
    ensures forall r :: IsPartitionOf(r, 0, |w|) && NonSingletonsFit(r, w, cap) ==> exactBins <= |r|
  {
    exact, exactBins := ExactSolver.BruteForcePacking(|w|, w, cap);
  }

  /** A wrapper that feeds CompareSolvers: the exact optimum's minimality applied to
      First Fit's packing, together with FirstFitBinBound for that packing. */
  lemma Compare(exactBins: nat, greedy: Partition, w: seq<real>, cap: real)
    requires forall r :: IsPartitionOf(r, 0, |w|) && NonSingletonsFit(r, w, cap) ==> exactBins <= |r|
    requires IsPartitionOf(greedy, 0, |w|) && NonSingletonsFit(greedy, w, cap) && NonNegative(w)
    requires BlocksInRange(greedy, |w|) && FirstFit.FirstFitRule(greedy, w, cap)
    ensures exactBins <= |greedy|
    ensures |greedy| >= 2 ==> FirstFit.Times(|greedy| - 1, cap) < 2.0 * FirstFit.PackedWeight(greedy, w)
  {
    FirstFit.FirstFitBinBound(greedy, w, cap);
  }
}
