/** Items, bins and partitions shared by the exact and the greedy bin-packing solvers.
    An item is its index into the weight table; weights and the capacity are reals. */
module Bins {

  /** A bin: the indices of the items it holds. */
  type Block = seq<nat>

  /** An ordered collection of bins. */
  type Partition = seq<Block>

  /** Every index in the box names an entry of a weight table of length n. */
  predicate InRange(box: Block, n: nat) {
    forall j :: 0 <= j < |box| ==> box[j] < n
  }

  /** Every block of p only names entries of a weight table of length n. */
  predicate BlocksInRange(p: Partition, n: nat) {
    forall i :: 0 <= i < |p| ==> InRange(p[i], n)
  }

  /** Total weight of the items in a box, summed front to back. */
  function BoxWeight(box: Block, weights: seq<real>): real
    requires InRange(box, |weights|)
  {
    if |box| == 0 then 0.0 else weights[box[0]] + BoxWeight(box[1..], weights)
  }

  lemma BoxWeightAppend(box: Block, x: nat, weights: seq<real>)
    requires InRange(box, |weights|) && x < |weights|
    ensures InRange(box + [x], |weights|)
    ensures BoxWeight(box + [x], weights) == BoxWeight(box, weights) + weights[x]
  {
    if |box| > 0 {
      assert (box + [x])[1..] == box[1..] + [x];
      BoxWeightAppend(box[1..], x, weights);
    }
  }

  lemma BoxWeightPair(a: nat, b: nat, weights: seq<real>)
    requires a < |weights| && b < |weights|
    ensures InRange([a, b], |weights|)
    ensures BoxWeight([a, b], weights) == weights[a] + weights[b]
  {
    assert [a, b][1..] == [b];
    assert [b][1..] == [];
    assert BoxWeight([b], weights) == weights[b] + BoxWeight([], weights);
    assert BoxWeight([a, b], weights) == weights[a] + BoxWeight([b], weights);
  }

  lemma BoxWeightCons(x: nat, box: Block, weights: seq<real>)
    requires x < |weights| && InRange(box, |weights|)
    ensures InRange([x] + box, |weights|)
    ensures BoxWeight([x] + box, weights) == weights[x] + BoxWeight(box, weights)
  {
    assert ([x] + box)[1..] == box;
  }

  /** The capacity test on one box: the summed weight of its items, accumulated
      item by item, is at most the capacity. */
  method CheckValidity(box: Block, weights: seq<real>, capacity: real) returns (ok: bool)
    requires InRange(box, |weights|)
    ensures ok <==> BoxWeight(box, weights) <= capacity
    ensures |box| == 0 ==> (ok <==> 0.0 <= capacity)
  {
    var weightSum := 0.0;
    for i := 0 to |box|
      invariant InRange(box[..i], |weights|)
      invariant weightSum == BoxWeight(box[..i], weights)
    {
      assert box[..i + 1] == box[..i] + [box[i]];
      BoxWeightAppend(box[..i], box[i], weights);
      weightSum := weightSum + weights[box[i]];
    }
    assert box[..|box|] == box;
    ok := weightSum <= capacity;
  }

  /** The box lists its items in strictly increasing order, so none twice. */
  ghost predicate Increasing(box: Block) {
    forall i, j :: 0 <= i < j < |box| ==> box[i] < box[j]
  }

  /** Some block of p holds x. */
  ghost predicate InSomeBlock(p: Partition, x: nat) {
    exists i :: 0 <= i < |p| && x in p[i]
  }

  /** p splits the items lo .. hi-1 into non-empty, increasing, pairwise disjoint
      blocks that together hold every one of them and nothing else. */
  ghost predicate IsPartitionOf(p: Partition, lo: nat, hi: nat) {
    && (forall i :: 0 <= i < |p| ==> |p[i]| > 0 && Increasing(p[i]))
    && (forall i, x :: 0 <= i < |p| && x in p[i] ==> lo <= x < hi)
    && (forall x :: lo <= x < hi ==> InSomeBlock(p, x))
    && (forall i, j, x :: 0 <= i < |p| && 0 <= j < |p| && x in p[i] && x in p[j] ==> i == j)
  }

  /** Every block of p holding two or more items is within capacity; single-item
      blocks are not constrained. */
  ghost predicate NonSingletonsFit(p: Partition, weights: seq<real>, capacity: real) {
    forall i :: 0 <= i < |p| && |p[i]| >= 2 ==>
      InRange(p[i], |weights|) && BoxWeight(p[i], weights) <= capacity
  }

  /** No weight is negative. */
  ghost predicate NonNegative(weights: seq<real>) {
    forall i :: 0 <= i < |weights| ==> 0.0 <= weights[i]
  }

  lemma {:induction false} BoxWeightNonNegative(box: Block, weights: seq<real>)
    requires InRange(box, |weights|) && NonNegative(weights)
    ensures 0.0 <= BoxWeight(box, weights)
  {
    if |box| > 0 {
      BoxWeightNonNegative(box[1..], weights);
    }
  }

  /** With no negative weight, a prefix of a box weighs no more than the box. */
  lemma {:induction false} BoxWeightPrefix(box: Block, k: nat, weights: seq<real>)
    requires InRange(box, |weights|) && NonNegative(weights) && k <= |box|
    ensures InRange(box[..k], |weights|)
    ensures BoxWeight(box[..k], weights) <= BoxWeight(box, weights)
  {
    assert forall j :: 0 <= j < k ==> box[..k][j] == box[j];
    if k == 0 {
      BoxWeightNonNegative(box, weights);
    } else {
      assert box[..k][1..] == box[1..][..k - 1];
      BoxWeightPrefix(box[1..], k - 1, weights);
    }
  }

  /** One bin per item: [[0], [1], ..., [n-1]]. */
  function Singletons(n: nat): (p: Partition)
    ensures |p| == n
  {
    seq(n, i => [i])
  }

  /** One bin per item partitions the items, every bin holding exactly one item,
      so the capacity test constrains none of them whatever the weights. */
  lemma SingletonsPartition(n: nat)
    ensures IsPartitionOf(Singletons(n), 0, n)
    ensures forall i :: 0 <= i < n ==> Singletons(n)[i] == [i]
    ensures forall w: seq<real>, cap: real :: NonSingletonsFit(Singletons(n), w, cap)
  {
    var p := Singletons(n);
    forall x | 0 <= x < n ensures InSomeBlock(p, x) {
      assert x in p[x];
    }
  }

  lemma PartitionInRange(p: Partition, lo: nat, hi: nat, n: nat)
    requires IsPartitionOf(p, lo, hi) && hi <= n
    ensures BlocksInRange(p, n)
  {
    forall i, j | 0 <= i < |p| && 0 <= j < |p[i]| ensures p[i][j] < n {
      assert p[i][j] in p[i];
    }
  }
}
