/** The exact solver: scan every packing the search yields and keep the first one
    with the fewest bins, starting from one bin per item. */
module ExactSolver {
  import opened Bins
  import opened Enumerator

  /** choices[j] is shorter than count, shorter than every earlier entry of the
      first t, and no longer than any later one of them. */
  ghost predicate FirstShortest(choices: seq<Partition>, j: nat, t: nat, count: nat)
    requires t <= |choices|
  {
    && j < t
    && |choices[j]| < count
    && (forall i :: 0 <= i < j ==> |choices[i]| > |choices[j]|)
    && (forall i :: j < i < t ==> |choices[i]| >= |choices[j]|)
  }

  /** Brute-force packing of count items: the baseline is one bin per item; a
      yielded packing replaces the best so far only when it has strictly fewer
      bins. */
  method BruteForcePacking(count: nat, w: seq<real>, cap: real) returns (packing: Partition, bins: nat)
    requires |w| >= 1
    ensures bins == |packing| && bins <= count
    ensures forall q :: q in GenerateAllValidChoices(w, cap) ==> bins <= |q|
    ensures || (packing == Singletons(count) &&
                forall q :: q in GenerateAllValidChoices(w, cap) ==> count <= |q|)
            || (exists j: nat :: FirstShortest(GenerateAllValidChoices(w, cap), j, |GenerateAllValidChoices(w, cap)|, count)
                  && packing == GenerateAllValidChoices(w, cap)[j])
    ensures count == |w| ==> IsPartitionOf(packing, 0, count) && NonSingletonsFit(packing, w, cap)
    ensures count == |w| && NonNegative(w) ==>
      forall q :: IsPartitionOf(q, 0, count) && NonSingletonsFit(q, w, cap) ==> bins <= |q|
  {
    bins := count;
    packing := Singletons(count);
    var choices := GenerateAllValidChoices(w, cap);
    for t := 0 to |choices|
      invariant bins == |packing| && bins <= count
      invariant forall i :: 0 <= i < t ==> bins <= |choices[i]|
      invariant || (packing == Singletons(count) && forall i :: 0 <= i < t ==> count <= |choices[i]|)
                || (exists j: nat :: FirstShortest(choices, j, t, count) && packing == choices[j])
    {
      if |choices[t]| < bins {
        packing := choices[t];
        bins := |choices[t]|;
        assert FirstShortest(choices, t, t + 1, count);
      }
    }
    if packing != Singletons(count) {
      ghost var j: nat :| FirstShortest(choices, j, |choices|, count) && packing == choices[j];
      assert packing in choices;
    }
    if count == |w| {
      ShortestIsOptimal(w, cap, packing, bins);
    }
  }

  /** A packing from the search, or one bin per item, that no packing from the
      search beats is a valid packing; with no negative weight, no valid packing
      at all beats it. */
  lemma ShortestIsOptimal(w: seq<real>, cap: real, packing: Partition, bins: nat)
    requires |w| >= 1 && bins == |packing| <= |w|
    requires forall q :: q in GenerateAllValidChoices(w, cap) ==> bins <= |q|
    requires packing == Singletons(|w|) || packing in GenerateAllValidChoices(w, cap)
    ensures IsPartitionOf(packing, 0, |w|) && NonSingletonsFit(packing, w, cap)
    ensures NonNegative(w) ==>
      forall q :: IsPartitionOf(q, 0, |w|) && NonSingletonsFit(q, w, cap) ==> bins <= |q|
  {
    var choices := GenerateAllValidChoices(w, cap);
    ChoicesArePartitions(w, cap);
    SingletonsPartition(|w|);
    if NonNegative(w) {
      forall q | IsPartitionOf(q, 0, |w|) && NonSingletonsFit(q, w, cap) ensures bins <= |q| {
        if |q| < |w| {
          ChoicesComplete(w, cap, q);
          var p :| p in choices && multiset(p) == multiset(q);
          assert |p| == |multiset(p)| == |multiset(q)| == |q|;
        }
      }
    }
  }

  /** With three packings of the items after the first, the search yields what
      extending each of them with item 0 yields, in their order. */
  lemma ChoicesFromThree(w: seq<real>, cap: real, ps: seq<Partition>,
                         e0: seq<Partition>, e1: seq<Partition>, e2: seq<Partition>)
    requires |w| >= 2 && SubGenerator(w, cap, 1) == ps && |ps| == 3
    requires Extend(ps[0], 0, w, cap) == e0 && Extend(ps[1], 0, w, cap) == e1
    requires Extend(ps[2], 0, w, cap) == e2
    ensures GenerateAllValidChoices(w, cap) == e0 + e1 + e2
  {
    assert ps[1..][1..] == ps[2..];
    assert ExtendAll(ps[2..], 0, w, cap) == e2 + ExtendAll(ps[3..], 0, w, cap);
    assert ExtendAll(ps[1..], 0, w, cap) == e1 + ExtendAll(ps[2..], 0, w, cap);
    assert ExtendAll(ps, 0, w, cap) == e0 + ExtendAll(ps[1..], 0, w, cap);
  }

  /** The packings the search yields on the first reference instance. */
  lemma ChoicesOnFirstInstance()
    ensures GenerateAllValidChoices([1.0, 1.4, 0.6, 1.0], 2.0)
      == [[[0], [1], [2, 3]], [[1, 2], [0, 3]], [[0], [1, 2], [3]], [[1], [0, 2], [3]], [[1], [2], [0, 3]]]
  {
    var w := [1.0, 1.4, 0.6, 1.0];
    var e0: seq<Partition> := [[[0], [1], [2, 3]]];
    var e1: seq<Partition> := [[[1, 2], [0, 3]], [[0], [1, 2], [3]]];
    var e2: seq<Partition> := [[[1], [0, 2], [3]], [[1], [2], [0, 3]]];
    FirstInstanceFromItem1();
    FirstExtendsOnFirstInstance();
    LastExtendOnFirstInstance();
    ChoicesFromThree(w, 2.0, [[[1], [2, 3]], [[1, 2], [3]], [[1], [2], [3]]], e0, e1, e2);
  }

  /** With two packings of the items after k, the generator yields for k what
      extending each of them with k yields, in their order. */
  lemma SubGeneratorFromTwo(w: seq<real>, cap: real, k: nat, ps: seq<Partition>,
                            e0: seq<Partition>, e1: seq<Partition>)
    requires k + 1 < |w| && SubGenerator(w, cap, k + 1) == ps && |ps| == 2
    requires Extend(ps[0], k, w, cap) == e0 && Extend(ps[1], k, w, cap) == e1
    ensures SubGenerator(w, cap, k) == e0 + e1
  {
    assert ExtendAll(ps[1..], k, w, cap) == e1 + ExtendAll(ps[2..], k, w, cap);
    assert ExtendAll(ps, k, w, cap) == e0 + ExtendAll(ps[1..], k, w, cap);
  }

  /** Items 2 .. 3 of the first reference instance. */
  lemma FirstInstanceFromItem2()
    ensures SubGenerator([1.0, 1.4, 0.6, 1.0], 2.0, 2) == [[[2, 3]], [[2], [3]]]
  {
    var w := [1.0, 1.4, 0.6, 1.0];
    BoxWeightPair(2, 3, w);
    assert [2] + [3] == [2, 3];
    assert EnlargedFits([[3]], 0, 2, w, 2.0);
    assert InsertAt([[3]], 0, 2) == [[2, 3]];
    assert Insertions([[3]], 2, w, 2.0, 0) == [[[2, 3]]];
    assert [[2]] + [[3]] == [[2], [3]];
    assert Extend([[3]], 2, w, 2.0) == [[[2, 3]], [[2], [3]]];
  }

  /** Item 1 added to the packings of items 2 .. 3. */
  lemma ExtendsOfItem1()
    ensures Extend([[2, 3]], 1, [1.0, 1.4, 0.6, 1.0], 2.0) == [[[1], [2, 3]]]
    ensures Extend([[2], [3]], 1, [1.0, 1.4, 0.6, 1.0], 2.0) == [[[1, 2], [3]], [[1], [2], [3]]]
  {
    var w := [1.0, 1.4, 0.6, 1.0];
    BoxWeightPair(2, 3, w);
    BoxWeightPair(1, 2, w);
    BoxWeightPair(1, 3, w);
    BoxWeightCons(1, [2, 3], w);
    assert [1] + [2, 3] == [1, 2, 3] && [1] + [2] == [1, 2] && [1] + [3] == [1, 3];
    assert !EnlargedFits([[2, 3]], 0, 1, w, 2.0);
    assert Insertions([[2, 3]], 1, w, 2.0, 0) == [];
    assert [[1]] + [[2, 3]] == [[1], [2, 3]];
    assert EnlargedFits([[2], [3]], 0, 1, w, 2.0);
    assert !EnlargedFits([[2], [3]], 1, 1, w, 2.0);
    assert InsertAt([[2], [3]], 0, 1) == [[1, 2], [3]];
    assert Insertions([[2], [3]], 1, w, 2.0, 1) == [];
    assert Insertions([[2], [3]], 1, w, 2.0, 0) == [[[1, 2], [3]]];
    assert [[1]] + [[2], [3]] == [[1], [2], [3]];
  }

  /** Items 1 .. 3 of the first reference instance. */
  lemma FirstInstanceFromItem1()
    ensures SubGenerator([1.0, 1.4, 0.6, 1.0], 2.0, 1) == [[[1], [2, 3]], [[1, 2], [3]], [[1], [2], [3]]]
  {
    FirstInstanceFromItem2();
    ExtendsOfItem1();
    SubGeneratorFromTwo([1.0, 1.4, 0.6, 1.0], 2.0, 1, [[[2, 3]], [[2], [3]]],
                        [[[1], [2, 3]]], [[[1, 2], [3]], [[1], [2], [3]]]);
  }

  /** Item 0 added to the first two packings of items 1 .. 3. */
  lemma FirstExtendsOnFirstInstance()
    ensures Extend([[1], [2, 3]], 0, [1.0, 1.4, 0.6, 1.0], 2.0) == [[[0], [1], [2, 3]]]
    ensures Extend([[1, 2], [3]], 0, [1.0, 1.4, 0.6, 1.0], 2.0) == [[[1, 2], [0, 3]], [[0], [1, 2], [3]]]
  {
    var w := [1.0, 1.4, 0.6, 1.0];
    BoxWeightPair(0, 1, w);
    BoxWeightPair(0, 3, w);
    BoxWeightPair(2, 3, w);
    BoxWeightCons(0, [2, 3], w);
    BoxWeightPair(1, 2, w);
    BoxWeightCons(0, [1, 2], w);
    assert [0] + [1] == [0, 1] && [0] + [3] == [0, 3];
    assert [0] + [2, 3] == [0, 2, 3] && [0] + [1, 2] == [0, 1, 2];
    assert !EnlargedFits([[1], [2, 3]], 0, 0, w, 2.0);
    assert !EnlargedFits([[1], [2, 3]], 1, 0, w, 2.0);
    assert Insertions([[1], [2, 3]], 0, w, 2.0, 1) == [];
    assert Insertions([[1], [2, 3]], 0, w, 2.0, 0) == [];
    assert [[0]] + [[1], [2, 3]] == [[0], [1], [2, 3]];
    assert !EnlargedFits([[1, 2], [3]], 0, 0, w, 2.0);
    assert EnlargedFits([[1, 2], [3]], 1, 0, w, 2.0);
    assert InsertAt([[1, 2], [3]], 1, 0) == [[1, 2], [0, 3]];
    assert Insertions([[1, 2], [3]], 0, w, 2.0, 1) == [[[1, 2], [0, 3]]];
    assert Insertions([[1, 2], [3]], 0, w, 2.0, 0) == [[[1, 2], [0, 3]]];
    assert [[0]] + [[1, 2], [3]] == [[0], [1, 2], [3]];
  }

  /** Item 0 added to the all-singletons packing of items 1 .. 3. */
  lemma LastExtendOnFirstInstance()
    ensures Extend([[1], [2], [3]], 0, [1.0, 1.4, 0.6, 1.0], 2.0) == [[[1], [0, 2], [3]], [[1], [2], [0, 3]]]
  {
    var w := [1.0, 1.4, 0.6, 1.0];
    BoxWeightPair(0, 1, w);
    BoxWeightPair(0, 2, w);
    BoxWeightPair(0, 3, w);
    assert [0] + [1] == [0, 1] && [0] + [2] == [0, 2] && [0] + [3] == [0, 3];
    assert !EnlargedFits([[1], [2], [3]], 0, 0, w, 2.0);
    assert EnlargedFits([[1], [2], [3]], 1, 0, w, 2.0);
    assert EnlargedFits([[1], [2], [3]], 2, 0, w, 2.0);
    assert InsertAt([[1], [2], [3]], 1, 0) == [[1], [0, 2], [3]];
    assert InsertAt([[1], [2], [3]], 2, 0) == [[1], [2], [0, 3]];
    assert Insertions([[1], [2], [3]], 0, w, 2.0, 2) == [[[1], [2], [0, 3]]];
    assert Insertions([[1], [2], [3]], 0, w, 2.0, 1) == [[[1], [0, 2], [3]], [[1], [2], [0, 3]]];
    assert Insertions([[1], [2], [3]], 0, w, 2.0, 0) == [[[1], [0, 2], [3]], [[1], [2], [0, 3]]];
  }

  /** Among the five packings the search yields on the first reference instance,
      the only one with fewer than four bins is the second. */
  lemma ShortestOfFirstInstance(choices: seq<Partition>, packing: Partition)
    requires choices ==
      [[[0], [1], [2, 3]], [[1, 2], [0, 3]], [[0], [1, 2], [3]], [[1], [0, 2], [3]], [[1], [2], [0, 3]]]
    requires || (packing == Singletons(4) && forall q :: q in choices ==> 4 <= |q|)
             || (exists j: nat :: FirstShortest(choices, j, |choices|, 4) && packing == choices[j])
    ensures packing == [[1, 2], [0, 3]]
  {
    assert choices[1] in choices && |choices[1]| == 2;
    var j: nat :| FirstShortest(choices, j, |choices|, 4) && packing == choices[j];
    assert forall i :: 0 <= i < 5 && i != 1 ==> |choices[i]| == 3;
  }

  /** n = 4, capacity 2, weights [1.0, 1.4, 0.6, 1.0]: two bins, [[1, 2], [0, 3]]. */
  method FirstReferenceInstance() returns (packing: Partition, bins: nat)
    ensures packing == [[1, 2], [0, 3]] && bins == 2
  {
    var w := [1.0, 1.4, 0.6, 1.0];
    packing, bins := BruteForcePacking(4, w, 2.0);
    ChoicesOnFirstInstance();
    ShortestOfFirstInstance(GenerateAllValidChoices(w, 2.0), packing);
  }
}
