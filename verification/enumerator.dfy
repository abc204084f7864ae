/** The search space of the exact bin-packing solver: a recursive generator of
    packings of the items k .. n-1, yielding them in the order the source does. */
module Enumerator {
  import opened Bins
  import opened Sequences

  /** p with item k put in front of block i; every other block is left as it was. */
  function InsertAt(p: Partition, i: nat, k: nat): (q: Partition)
    requires i < |p|
    ensures |q| == |p| && q[i] == [k] + p[i]
    ensures forall j :: 0 <= j < |p| && j != i ==> q[j] == p[j]
  {
    p[i := [k] + p[i]]
  }

  /** Block i of p, once k is put in front of it, passes the capacity test. */
  predicate EnlargedFits(p: Partition, i: nat, k: nat, w: seq<real>, cap: real) {
    i < |p| && InRange([k] + p[i], |w|) && BoxWeight([k] + p[i], w) <= cap
  }

  /** The candidates that put k in front of block i, i+1, ... of p, each kept
      only when the enlarged block passes the capacity test. */
  function Insertions(p: Partition, k: nat, w: seq<real>, cap: real, i: nat): (r: seq<Partition>)
    requires k < |w| && BlocksInRange(p, |w|) && i <= |p|
    ensures forall j :: 0 <= j < |r| ==> BlocksInRange(r[j], |w|)
    ensures |r| <= |p| - i
    decreases |p| - i
  {
    if i == |p| then []
    else
      var rest := Insertions(p, k, w, cap, i + 1);
      if EnlargedFits(p, i, k, w, cap) then [InsertAt(p, i, k)] + rest else rest
  }

  /** What one packing of the items after k yields once k is added: k joins each
      block in turn where it fits, then k alone as a new first block unless that
      would give one block per item. */
  function Extend(p: Partition, k: nat, w: seq<real>, cap: real): (r: seq<Partition>)
    requires k < |w| && BlocksInRange(p, |w|)
    ensures forall j :: 0 <= j < |r| ==> BlocksInRange(r[j], |w|)
    ensures |r| <= |p| + 1
    ensures |p| + 1 < |w| ==> |r| >= 1 && r[|r| - 1] == [[k]] + p
  {
    Insertions(p, k, w, cap, 0) + (if |[[k]] + p| < |w| then [[[k]] + p] else [])
  }

  /** Extend applied to every packing of ps, results concatenated in order. */
  function ExtendAll(ps: seq<Partition>, k: nat, w: seq<real>, cap: real): (r: seq<Partition>)
    requires k < |w| && forall j :: 0 <= j < |ps| ==> BlocksInRange(ps[j], |w|)
    ensures forall j :: 0 <= j < |r| ==> BlocksInRange(r[j], |w|)
  {
    if |ps| == 0 then [] else Extend(ps[0], k, w, cap) + ExtendAll(ps[1..], k, w, cap)
  }

  /** The inner generator run on the remaining items k .. n-1 (n = |w|): the last
      item alone forms one block; otherwise every packing of k+1 .. n-1 is extended
      by k. */
  function SubGenerator(w: seq<real>, cap: real, k: nat): (r: seq<Partition>)
    requires k < |w|
    ensures forall j :: 0 <= j < |r| ==> BlocksInRange(r[j], |w|)
    decreases |w| - k
  {
    if k == |w| - 1 then [[[k]]]
    else ExtendAll(SubGenerator(w, cap, k + 1), k, w, cap)
  }

  /** From the second item on, one bin per remaining item is among the packings
      the generator yields, so it yields at least one. */
  lemma {:induction false} SingletonsYielded(w: seq<real>, cap: real, k: nat)
    requires k < |w|
    ensures 1 <= k ==> SingletonsFrom(k, |w|) in SubGenerator(w, cap, k)
    ensures 1 <= k ==> |SubGenerator(w, cap, k)| >= 1
    decreases |w| - k
  {
    if k == |w| - 1 {
      assert SingletonsFrom(k, |w|) == [[k]];
    } else {
      SingletonsYielded(w, cap, k + 1);
      SingletonsReached(SubGenerator(w, cap, k + 1), k, w, cap);
    }
  }

  /** One bin for each of the items k .. n-1, in order. */
  function SingletonsFrom(k: nat, n: nat): (p: Partition)
    requires k <= n
    ensures |p| == n - k
    ensures forall i :: 0 <= i < n - k ==> p[i] == [k + i]
  {
    seq(n - k, i requires 0 <= i < n - k => [k + i])
  }

  /** If one bin per item after k is among ps, then, from the second item on,
      extending ps by k yields one bin per item from k. */
  lemma SingletonsReached(ps: seq<Partition>, k: nat, w: seq<real>, cap: real)
    requires k + 1 < |w| && forall j :: 0 <= j < |ps| ==> BlocksInRange(ps[j], |w|)
    requires 1 <= k ==> SingletonsFrom(k + 1, |w|) in ps
    ensures 1 <= k ==> SingletonsFrom(k, |w|) in ExtendAll(ps, k, w, cap)
  {
    if 1 <= k {
      var p := SingletonsFrom(k + 1, |w|);
      var i :| 0 <= i < |ps| && ps[i] == p;
      assert [[k]] + p == SingletonsFrom(k, |w|);
      ExtendMembers(p, k, w, cap);
      assert SingletonsFrom(k, |w|) in Extend(ps[i], k, w, cap);
      ExtendAllMembers(ps, k, w, cap);
    }
  }

  /** Every packing the search visits; the source fails on an empty weight list.
      A single item has the one packing [[0]]; ChoicesArePartitions, ChoicesDistinct
      and ChoicesComplete state what the search yields in general. */
  function GenerateAllValidChoices(w: seq<real>, cap: real): (r: seq<Partition>)
    requires |w| >= 1
    ensures |w| == 1 ==> r == [[[0]]]
  {
    SubGenerator(w, cap, 0)
  }

  // ---------------------------------------------------------------------------
  // What a single extension step yields

  lemma InsertionsMembers(p: Partition, k: nat, w: seq<real>, cap: real, i: nat)
    requires k < |w| && BlocksInRange(p, |w|) && i <= |p|
    ensures forall q :: q in Insertions(p, k, w, cap, i) ==>
      exists j :: i <= j < |p| && EnlargedFits(p, j, k, w, cap) && q == InsertAt(p, j, k)
    ensures forall j :: i <= j < |p| && EnlargedFits(p, j, k, w, cap) ==>
      InsertAt(p, j, k) in Insertions(p, k, w, cap, i)
    decreases |p| - i
  {
    if i < |p| {
      InsertionsMembers(p, k, w, cap, i + 1);
    }
  }

  /** A packing of the items after k yields exactly: p with k put in front of one
      block where the enlarged block passes the capacity test (all other blocks
      unchanged), and [[k]] + p when that has fewer blocks than there are items. */
  lemma ExtendMembers(p: Partition, k: nat, w: seq<real>, cap: real)
    requires k < |w| && BlocksInRange(p, |w|)
    ensures forall q :: q in Extend(p, k, w, cap) <==>
      (exists j :: 0 <= j < |p| && EnlargedFits(p, j, k, w, cap) && q == InsertAt(p, j, k))
      || (q == [[k]] + p && |p| + 1 < |w|)
  {
    InsertionsMembers(p, k, w, cap, 0);
    var ins := Insertions(p, k, w, cap, 0);
    var tail := if |[[k]] + p| < |w| then [[[k]] + p] else [];
    assert Extend(p, k, w, cap) == ins + tail;
    forall q ensures q in Extend(p, k, w, cap) <==>
      (exists j :: 0 <= j < |p| && EnlargedFits(p, j, k, w, cap) && q == InsertAt(p, j, k))
      || (q == [[k]] + p && |p| + 1 < |w|)
    {
      if q in ins {
        var j :| 0 <= j < |p| && EnlargedFits(p, j, k, w, cap) && q == InsertAt(p, j, k);
      }
      if j :| 0 <= j < |p| && EnlargedFits(p, j, k, w, cap) && q == InsertAt(p, j, k) {
        assert q in ins;
      }
    }
  }

  lemma {:induction false} ExtendAllMembers(ps: seq<Partition>, k: nat, w: seq<real>, cap: real)
    requires k < |w| && forall j :: 0 <= j < |ps| ==> BlocksInRange(ps[j], |w|)
    ensures forall q :: q in ExtendAll(ps, k, w, cap) <==>
      exists j :: 0 <= j < |ps| && q in Extend(ps[j], k, w, cap)
  {
    if |ps| > 0 {
      ExtendAllMembers(ps[1..], k, w, cap);
      assert ExtendAll(ps, k, w, cap) == Extend(ps[0], k, w, cap) + ExtendAll(ps[1..], k, w, cap);
      forall q | q in ExtendAll(ps, k, w, cap)
        ensures exists j :: 0 <= j < |ps| && q in Extend(ps[j], k, w, cap)
      {
        if q !in Extend(ps[0], k, w, cap) {
          var j :| 0 <= j < |ps[1..]| && q in Extend(ps[1..][j], k, w, cap);
          assert ps[1..][j] == ps[j + 1];
        }
      }
      forall q, j | 0 <= j < |ps| && q in Extend(ps[j], k, w, cap)
        ensures q in ExtendAll(ps, k, w, cap)
      {
        if j > 0 {
          assert ps[1..][j - 1] == ps[j];
        }
      }
    }
  }

  // ---------------------------------------------------------------------------
  // Soundness: every yielded packing is a partition of k .. n-1

  lemma InsertAtPartition(p: Partition, i: nat, k: nat, hi: nat)
    requires IsPartitionOf(p, k + 1, hi) && i < |p|
    ensures IsPartitionOf(InsertAt(p, i, k), k, hi)
  {
    var q := InsertAt(p, i, k);
    assert p[i][0] in p[i];
    assert forall x :: x in q[i] <==> x == k || x in p[i];
    forall j, x | 0 <= j < |q| && x in q[j] ensures k <= x < hi {
      if j != i {
        assert x in p[j];
      } else if x != k {
        assert x in p[i];
      }
    }
    forall a, b | 0 <= a < b < |q[i]| ensures q[i][a] < q[i][b] {
      assert q[i][b] == p[i][b - 1];
      assert p[i][b - 1] in p[i];
      if a > 0 {
        assert q[i][a] == p[i][a - 1];
      }
    }
    forall x | k <= x < hi ensures InSomeBlock(q, x) {
      if x == k {
        assert x in q[i];
      } else {
        assert InSomeBlock(p, x);
        var j :| 0 <= j < |p| && x in p[j];
        assert x in q[j];
      }
    }
  }

  /** [[k]] + p, seen through its blocks: block 0 is [k], block j+1 is p's block j. */
  ghost predicate Shifted(q: Partition, p: Partition, k: nat) {
    |q| == |p| + 1 && q[0] == [k] && forall j :: 0 <= j < |p| ==> q[j + 1] == p[j]
  }

  lemma ShiftedBlocks(q: Partition, p: Partition, k: nat, hi: nat)
    requires Shifted(q, p, k) && k < hi
    requires forall i :: 0 <= i < |p| ==> |p[i]| > 0 && Increasing(p[i])
    requires forall i, x :: 0 <= i < |p| && x in p[i] ==> k + 1 <= x < hi
    ensures forall i :: 0 <= i < |q| ==> |q[i]| > 0 && Increasing(q[i])
    ensures forall i, x :: 0 <= i < |q| && x in q[i] ==> k <= x < hi
  {
    forall i | 0 <= i < |q| ensures |q[i]| > 0 && Increasing(q[i]) {
      if i > 0 {
        assert q[i] == p[i - 1];
      }
    }
    forall i, x | 0 <= i < |q| && x in q[i] ensures k <= x < hi {
      if i > 0 {
        assert x in p[i - 1];
      }
    }
  }

  lemma ShiftedCovers(q: Partition, p: Partition, k: nat, hi: nat)
    requires Shifted(q, p, k)
    requires forall x :: k + 1 <= x < hi ==> InSomeBlock(p, x)
    ensures forall x :: k <= x < hi ==> InSomeBlock(q, x)
  {
    forall x | k <= x < hi ensures InSomeBlock(q, x) {
      if x == k {
        assert x in q[0];
      } else {
        assert InSomeBlock(p, x);
        var j :| 0 <= j < |p| && x in p[j];
        assert x in q[j + 1];
      }
    }
  }

  lemma ShiftedDisjoint(q: Partition, p: Partition, k: nat)
    requires Shifted(q, p, k)
    requires forall i, x :: 0 <= i < |p| && x in p[i] ==> k + 1 <= x
    requires forall i, j, x :: 0 <= i < |p| && 0 <= j < |p| && x in p[i] && x in p[j] ==> i == j
    ensures forall a, b, x :: 0 <= a < |q| && 0 <= b < |q| && x in q[a] && x in q[b] ==> a == b
  {
    forall a, b, x | 0 <= a < |q| && 0 <= b < |q| && x in q[a] && x in q[b] ensures a == b {
      if a > 0 && b > 0 {
        assert x in p[a - 1] && x in p[b - 1];
      } else if a > 0 {
        assert x in p[a - 1];
      } else if b > 0 {
        assert x in p[b - 1];
      }
    }
  }

  lemma PrependPartition(p: Partition, k: nat, hi: nat)
    requires IsPartitionOf(p, k + 1, hi) && k < hi
    ensures IsPartitionOf([[k]] + p, k, hi)
  {
    var q := [[k]] + p;
    assert Shifted(q, p, k);
    ShiftedBlocks(q, p, k, hi);
    ShiftedCovers(q, p, k, hi);
    ShiftedDisjoint(q, p, k);
  }

  /** What the generator promises of each packing of k .. n-1 it yields. */
  ghost predicate Sound(q: Partition, k: nat, w: seq<real>, cap: real) {
    && IsPartitionOf(q, k, |w|)
    && NonSingletonsFit(q, w, cap)
    && |q| + k <= |w|
    && (|q| < |w| || k + 1 == |w|)
  }

  /** Putting k into a block where it fits keeps the generator's promise. */
  lemma InsertSound(p: Partition, j: nat, k: nat, w: seq<real>, cap: real)
    requires k + 1 < |w| && Sound(p, k + 1, w, cap) && EnlargedFits(p, j, k, w, cap)
    ensures Sound(InsertAt(p, j, k), k, w, cap)
  {
    InsertAtPartition(p, j, k, |w|);
  }

  /** Opening a new block for k, when that leaves fewer blocks than items, keeps
      the generator's promise. */
  lemma PrependSound(p: Partition, k: nat, w: seq<real>, cap: real)
    requires k + 1 < |w| && Sound(p, k + 1, w, cap) && |p| + 1 < |w|
    ensures Sound([[k]] + p, k, w, cap)
  {
    var q := [[k]] + p;
    PrependPartition(p, k, |w|);
    assert forall j :: 0 <= j < |p| ==> q[j + 1] == p[j];
  }

  lemma ExtendSound(p: Partition, k: nat, w: seq<real>, cap: real)
    requires k + 1 < |w| && Sound(p, k + 1, w, cap)
    ensures BlocksInRange(p, |w|)
    ensures forall q :: q in Extend(p, k, w, cap) ==> Sound(q, k, w, cap)
  {
    PartitionInRange(p, k + 1, |w|, |w|);
    ExtendMembers(p, k, w, cap);
    forall q | q in Extend(p, k, w, cap) ensures Sound(q, k, w, cap) {
      if j :| 0 <= j < |p| && EnlargedFits(p, j, k, w, cap) && q == InsertAt(p, j, k) {
        InsertSound(p, j, k, w, cap);
      } else {
        PrependSound(p, k, w, cap);
      }
    }
  }

  /** The last item alone is a sound packing of itself. */
  lemma LastItemSound(w: seq<real>, cap: real, k: nat)
    requires k + 1 == |w|
    ensures Sound([[k]], k, w, cap)
  {
    var q: Partition := [[k]];
    assert q[0][0] == k;
    assert InSomeBlock(q, k);
  }

  /** Extending sound packings of k+1 .. n-1 by k gives sound packings of k .. n-1. */
  lemma ExtendAllSound(ps: seq<Partition>, k: nat, w: seq<real>, cap: real)
    requires k + 1 < |w| && forall q :: q in ps ==> Sound(q, k + 1, w, cap)
    requires forall j :: 0 <= j < |ps| ==> BlocksInRange(ps[j], |w|)
    ensures forall q :: q in ExtendAll(ps, k, w, cap) ==> Sound(q, k, w, cap)
  {
    ExtendAllMembers(ps, k, w, cap);
    forall q | q in ExtendAll(ps, k, w, cap) ensures Sound(q, k, w, cap) {
      var j :| 0 <= j < |ps| && q in Extend(ps[j], k, w, cap);
      assert ps[j] in ps;
      ExtendSound(ps[j], k, w, cap);
    }
  }

  /** Every packing yielded for the items k .. n-1 covers each of them exactly once
      with non-empty, increasing blocks; every block of two or more items passes
      the capacity test; there are at most n-k blocks, and fewer than n unless k
      is the last item. */
  lemma {:induction false} SubGeneratorSound(w: seq<real>, cap: real, k: nat)
    requires k < |w|
    ensures forall q :: q in SubGenerator(w, cap, k) ==> Sound(q, k, w, cap)
    decreases |w| - k
  {
    if k == |w| - 1 {
      LastItemSound(w, cap, k);
    } else {
      SubGeneratorSound(w, cap, k + 1);
      ExtendAllSound(SubGenerator(w, cap, k + 1), k, w, cap);
    }
  }

  // ---------------------------------------------------------------------------
  // No packing is yielded twice: taking k back out recovers the parent packing

  /** p with k removed from the front of the block that starts with it; a block
      left empty is dropped. */
  function Strip(p: Partition, k: nat): Partition {
    if |p| == 0 then []
    else if p[0] == [k] then Strip(p[1..], k)
    else [if |p[0]| > 0 && p[0][0] == k then p[0][1..] else p[0]] + Strip(p[1..], k)
  }

  /** No block of p is empty or holds k. */
  ghost predicate AvoidsItem(p: Partition, k: nat) {
    forall j :: 0 <= j < |p| ==> |p[j]| > 0 && k !in p[j]
  }

  lemma StripConcat(a: Partition, b: Partition, k: nat)
    ensures Strip(a + b, k) == Strip(a, k) + Strip(b, k)
  {
    if |a| > 0 {
      assert (a + b)[1..] == a[1..] + b;
      StripConcat(a[1..], b, k);
    } else {
      assert a + b == b;
    }
  }

  lemma StripAvoiding(p: Partition, k: nat)
    requires AvoidsItem(p, k)
    ensures Strip(p, k) == p
  {
    if |p| > 0 {
      assert p[0][0] in p[0];
      StripAvoiding(p[1..], k);
    }
  }

  /** Taking k out of the block [k] + x, between blocks that avoid k, leaves x. */
  lemma StripAround(a: Partition, x: Block, b: Partition, k: nat)
    requires AvoidsItem(a, k) && AvoidsItem(b, k) && |x| > 0
    ensures Strip(a + [[k] + x] + b, k) == a + [x] + b
  {
    StripConcat(a + [[k] + x], b, k);
    StripConcat(a, [[k] + x], k);
    StripAvoiding(a, k);
    StripAvoiding(b, k);
    assert [[k] + x][1..] == [];
    assert ([k] + x)[1..] == x;
    assert [k] + x != [k] by {
      assert |[k] + x| > 1;
    }
  }

  /** Putting k into block i and then taking it out gives p back. */
  lemma StripInsertAt(p: Partition, i: nat, k: nat)
    requires AvoidsItem(p, k) && i < |p|
    ensures Strip(InsertAt(p, i, k), k) == p
  {
    var a, x, b := p[..i], p[i], p[i + 1..];
    assert AvoidsItem(a, k) by {
      assert forall j :: 0 <= j < |a| ==> a[j] == p[j];
    }
    assert AvoidsItem(b, k) by {
      assert forall j :: 0 <= j < |b| ==> b[j] == p[i + 1 + j];
    }
    assert InsertAt(p, i, k) == a + [[k] + x] + b;
    StripAround(a, x, b, k);
    assert a + [x] + b == p;
  }

  /** Opening a new block for k and then taking it out gives p back. */
  lemma StripPrepend(p: Partition, k: nat)
    requires AvoidsItem(p, k)
    ensures Strip([[k]] + p, k) == p
  {
    assert ([[k]] + p)[1..] == p;
    StripAvoiding(p, k);
  }

  lemma ExtendInverse(p: Partition, k: nat, w: seq<real>, cap: real)
    requires k < |w| && BlocksInRange(p, |w|) && AvoidsItem(p, k)
    ensures forall q :: q in Extend(p, k, w, cap) ==> Strip(q, k) == p
  {
    ExtendMembers(p, k, w, cap);
    forall q | q in Extend(p, k, w, cap) ensures Strip(q, k) == p {
      if j :| 0 <= j < |p| && EnlargedFits(p, j, k, w, cap) && q == InsertAt(p, j, k) {
        StripInsertAt(p, j, k);
      } else {
        StripPrepend(p, k);
      }
    }
  }

  lemma InsertionsDistinct(p: Partition, k: nat, w: seq<real>, cap: real, i: nat)
    requires k < |w| && BlocksInRange(p, |w|) && i <= |p|
    ensures Distinct(Insertions(p, k, w, cap, i))
    decreases |p| - i
  {
    if i < |p| {
      InsertionsDistinct(p, k, w, cap, i + 1);
      InsertionsMembers(p, k, w, cap, i + 1);
      var rest := Insertions(p, k, w, cap, i + 1);
      if EnlargedFits(p, i, k, w, cap) {
        var head := InsertAt(p, i, k);
        forall q | q in rest ensures q != head {
          var j :| i + 1 <= j < |p| && EnlargedFits(p, j, k, w, cap) && q == InsertAt(p, j, k);
          assert |q[i]| != |head[i]|;
        }
        DistinctConcat([head], rest);
      }
    }
  }

  /** One packing never yields the same packing twice. */
  lemma ExtendDistinct(p: Partition, k: nat, w: seq<real>, cap: real)
    requires k < |w| && BlocksInRange(p, |w|)
    ensures Distinct(Extend(p, k, w, cap))
  {
    InsertionsDistinct(p, k, w, cap, 0);
    InsertionsMembers(p, k, w, cap, 0);
    var ins := Insertions(p, k, w, cap, 0);
    var tail := if |[[k]] + p| < |w| then [[[k]] + p] else [];
    forall q | q in ins ensures q !in tail {
      var j :| 0 <= j < |p| && EnlargedFits(p, j, k, w, cap) && q == InsertAt(p, j, k);
    }
    DistinctConcat(ins, tail);
  }

  lemma ExtendAllDistinct(ps: seq<Partition>, k: nat, w: seq<real>, cap: real)
    requires k < |w| && forall j :: 0 <= j < |ps| ==> BlocksInRange(ps[j], |w|)
    requires forall j :: 0 <= j < |ps| ==> AvoidsItem(ps[j], k)
    requires Distinct(ps)
    ensures Distinct(ExtendAll(ps, k, w, cap))
  {
    if |ps| > 0 {
      ExtendAllDistinct(ps[1..], k, w, cap);
      ExtendDistinct(ps[0], k, w, cap);
      ExtendAllMembers(ps[1..], k, w, cap);
      ExtendInverse(ps[0], k, w, cap);
      forall q | q in ExtendAll(ps[1..], k, w, cap) ensures Strip(q, k) != ps[0] {
        var j :| 0 <= j < |ps[1..]| && q in Extend(ps[1..][j], k, w, cap);
        ExtendInverse(ps[j + 1], k, w, cap);
        assert ps[0] != ps[j + 1];
      }
      DistinctConcat(Extend(ps[0], k, w, cap), ExtendAll(ps[1..], k, w, cap));
    }
  }

  /** The generator never yields the same packing twice. */
  lemma {:induction false} SubGeneratorDistinct(w: seq<real>, cap: real, k: nat)
    requires k < |w|
    ensures Distinct(SubGenerator(w, cap, k))
    decreases |w| - k
  {
    if k < |w| - 1 {
      SubGeneratorDistinct(w, cap, k + 1);
      SubGeneratorSound(w, cap, k + 1);
      var ps := SubGenerator(w, cap, k + 1);
      forall j | 0 <= j < |ps| ensures AvoidsItem(ps[j], k) {
        assert ps[j] in ps;
        forall b | 0 <= b < |ps[j]| ensures k !in ps[j][b] {
          if k in ps[j][b] {
            assert false;
          }
        }
      }
      ExtendAllDistinct(ps, k, w, cap);
    }
  }

  // ---------------------------------------------------------------------------
  // Completeness: every partition whose multi-item blocks fit is reached, up to
  // the order of its blocks

  lemma SingleItemPartition(q: Partition, k: nat)
    requires IsPartitionOf(q, k, k + 1)
    ensures q == [[k]]
  {
    assert InSomeBlock(q, k);
    forall i | 0 <= i < |q| ensures q[i] == [k] {
      var last := |q[i]| - 1;
      assert q[i][0] in q[i] && q[i][last] in q[i];
    }
    assert k in q[0] && k in q[|q| - 1];
    assert q == [q[0]];
  }

  /** The block holding the smallest item starts with it. */
  lemma FrontOfBlock(q: Partition, k: nat, hi: nat, i: nat)
    requires IsPartitionOf(q, k, hi) && i < |q| && k in q[i]
    ensures q[i][0] == k
  {
    var m :| 0 <= m < |q[i]| && q[i][m] == k;
    assert q[i][0] in q[i];
  }

  lemma DropSingletonPartition(q: Partition, i: nat, k: nat, hi: nat)
    requires IsPartitionOf(q, k, hi) && i < |q| && q[i] == [k]
    ensures IsPartitionOf(q[..i] + q[i + 1..], k + 1, hi)
  {
    var r := q[..i] + q[i + 1..];
    assert k in q[i];
    assert forall j :: 0 <= j < |r| ==> r[j] == q[if j < i then j else j + 1];
    forall x | k + 1 <= x < hi ensures InSomeBlock(r, x) {
      assert InSomeBlock(q, x);
      var m :| 0 <= m < |q| && x in q[m];
      if m < i {
        assert x in r[m];
      } else {
        assert m != i;
        assert x in r[m - 1];
      }
    }
    forall j, x | 0 <= j < |r| && x in r[j] ensures k + 1 <= x < hi {
      var m := if j < i then j else j + 1;
      assert x in q[m];
      assert m != i;
    }
    forall a, b, x | 0 <= a < |r| && 0 <= b < |r| && x in r[a] && x in r[b] ensures a == b {
      var ma := if a < i then a else a + 1;
      var mb := if b < i then b else b + 1;
      assert x in q[ma] && x in q[mb];
    }
  }

  lemma DropHeadPartition(q: Partition, i: nat, k: nat, hi: nat)
    requires IsPartitionOf(q, k, hi) && i < |q| && |q[i]| >= 2 && q[i][0] == k
    ensures IsPartitionOf(q[i := q[i][1..]], k + 1, hi)
  {
    var r := q[i := q[i][1..]];
    assert k in q[i];
    forall x | x in r[i] ensures x in q[i] && k < x {
      var m :| 0 <= m < |r[i]| && r[i][m] == x;
      assert q[i][m + 1] == x;
      assert q[i][0] < q[i][m + 1];
    }
    forall x | k + 1 <= x < hi ensures InSomeBlock(r, x) {
      assert InSomeBlock(q, x);
      var m :| 0 <= m < |q| && x in q[m];
      if m == i {
        var t :| 0 <= t < |q[i]| && q[i][t] == x;
        assert t > 0;
        assert r[i][t - 1] == x;
        assert x in r[i];
      } else {
        assert x in r[m];
      }
    }
    forall j, x | 0 <= j < |r| && x in r[j] ensures k + 1 <= x < hi {
      assert x in q[j];
      if j != i && x == k {
        assert false;
      }
    }
  }

  lemma DropSingletonFits(q: Partition, i: nat, w: seq<real>, cap: real)
    requires NonSingletonsFit(q, w, cap) && i < |q|
    ensures NonSingletonsFit(q[..i] + q[i + 1..], w, cap) && |q[..i] + q[i + 1..]| == |q| - 1
  {
    var r := q[..i] + q[i + 1..];
    assert forall j :: 0 <= j < |r| ==> r[j] == q[if j < i then j else j + 1];
  }

  lemma MultisetDrop<T>(s: seq<T>, i: nat)
    requires i < |s|
    ensures multiset(s) == multiset(s[..i] + s[i + 1..]) + multiset{s[i]}
  {
    assert s == s[..i] + [s[i]] + s[i + 1..];
  }

  /** With no negative weight, every partition of k .. n-1 whose blocks of two or
      more items pass the capacity test, and which has fewer than n blocks unless
      k is the last item, is yielded with its blocks in some order. */
  lemma {:induction false} SubGeneratorComplete(w: seq<real>, cap: real, k: nat, q: Partition)
    returns (p: Partition)
    requires k < |w| && NonNegative(w)
    requires IsPartitionOf(q, k, |w|) && NonSingletonsFit(q, w, cap)
    requires |q| < |w| || k + 1 == |w|
    ensures p in SubGenerator(w, cap, k) && multiset(p) == multiset(q)
    decreases |w| - k, 1
  {
    if k == |w| - 1 {
      SingleItemPartition(q, k);
      p := q;
      assert p in SubGenerator(w, cap, k);
    } else {
      assert InSomeBlock(q, k);
      var i :| 0 <= i < |q| && k in q[i];
      FrontOfBlock(q, k, |w|, i);
      if |q[i]| == 1 {
        p := CompleteWithNewBlock(w, cap, k, q, i);
      } else {
        p := CompleteWithEnlargedBlock(w, cap, k, q, i);
      }
    }
  }

  lemma ReachNewBlock(w: seq<real>, cap: real, k: nat, p: Partition)
    requires k + 1 < |w| && p in SubGenerator(w, cap, k + 1) && |p| + 1 < |w|
    ensures [[k]] + p in SubGenerator(w, cap, k)
  {
    var ps := SubGenerator(w, cap, k + 1);
    ExtendMembers(p, k, w, cap);
    ExtendAllMembers(ps, k, w, cap);
  }

  lemma ReachEnlarged(w: seq<real>, cap: real, k: nat, p: Partition, j: nat)
    requires k + 1 < |w| && p in SubGenerator(w, cap, k + 1) && EnlargedFits(p, j, k, w, cap)
    ensures InsertAt(p, j, k) in SubGenerator(w, cap, k)
  {
    var ps := SubGenerator(w, cap, k + 1);
    ExtendMembers(p, k, w, cap);
    ExtendAllMembers(ps, k, w, cap);
  }

  /** Opening k as a new block in front of a reached rearrangement of the other
      blocks reaches a rearrangement of q. */
  lemma NewBlockReached(w: seq<real>, cap: real, k: nat, q: Partition, i: nat, p: Partition)
    requires k + 1 < |w| && |q| < |w| && i < |q| && q[i] == [k]
    requires p in SubGenerator(w, cap, k + 1) && multiset(p) == multiset(q[..i] + q[i + 1..])
    ensures [[k]] + p in SubGenerator(w, cap, k) && multiset([[k]] + p) == multiset(q)
  {
    assert |p| == |multiset(p)| == |q[..i] + q[i + 1..]| == |q| - 1;
    ReachNewBlock(w, cap, k, p);
    MultisetDrop(q, i);
    assert multiset([[k]] + p) == multiset{[k]} + multiset(p);
  }

  /** Putting k back in front of the block that lost it reaches a rearrangement
      of q. */
  lemma EnlargedBlockReached(w: seq<real>, cap: real, k: nat, q: Partition, i: nat, p: Partition)
    returns (j: nat)
    requires k + 1 < |w| && i < |q| && |q[i]| >= 2 && q[i][0] == k
    requires InRange(q[i], |w|) && BoxWeight(q[i], w) <= cap
    requires p in SubGenerator(w, cap, k + 1) && multiset(p) == multiset(q[i := q[i][1..]])
    ensures j < |p| && InsertAt(p, j, k) in SubGenerator(w, cap, k)
    ensures multiset(InsertAt(p, j, k)) == multiset(q)
  {
    var b := q[i][1..];
    assert q[i] == [k] + b;
    assert b in multiset(q[i := b]);
    assert b in p;
    j :| 0 <= j < |p| && p[j] == b;
    assert EnlargedFits(p, j, k, w, cap);
    ReachEnlarged(w, cap, k, p, j);
    assert InsertAt(p, j, k) == p[j := q[i]];
    assert q == q[i := b][i := q[i]];
  }

  /** Completeness when k is alone in its block: the rest is reached, then k is
      opened as a new block. */
  lemma {:induction false} CompleteWithNewBlock(w: seq<real>, cap: real, k: nat, q: Partition, i: nat)
    returns (p: Partition)
    requires k + 1 < |w| && NonNegative(w)
    requires IsPartitionOf(q, k, |w|) && NonSingletonsFit(q, w, cap) && |q| < |w|
    requires i < |q| && q[i] == [k]
    ensures p in SubGenerator(w, cap, k) && multiset(p) == multiset(q)
    decreases |w| - k, 0
  {
    var r := q[..i] + q[i + 1..];
    DropSingletonPartition(q, i, k, |w|);
    DropSingletonFits(q, i, w, cap);
    var rest := SubGeneratorComplete(w, cap, k + 1, r);
    NewBlockReached(w, cap, k, q, i, rest);
    p := [[k]] + rest;
  }

  /** Completeness when k heads a block of two or more items: the packing with k
      taken out is reached, then k is put back in front of that block. */
  lemma {:induction false} CompleteWithEnlargedBlock(w: seq<real>, cap: real, k: nat, q: Partition, i: nat)
    returns (p: Partition)
    requires k + 1 < |w| && NonNegative(w)
    requires IsPartitionOf(q, k, |w|) && NonSingletonsFit(q, w, cap) && |q| < |w|
    requires i < |q| && |q[i]| >= 2 && q[i][0] == k
    ensures p in SubGenerator(w, cap, k) && multiset(p) == multiset(q)
    decreases |w| - k, 0
  {
    var r := DropHead(w, cap, k, q, i);
    var rest := SubGeneratorComplete(w, cap, k + 1, r);
    var j := EnlargedBlockReached(w, cap, k, q, i, rest);
    p := InsertAt(rest, j, k);
  }

  /** Taking k out of the front of its block leaves a valid packing of the items
      after k, with as many blocks. */
  lemma DropHead(w: seq<real>, cap: real, k: nat, q: Partition, i: nat) returns (r: Partition)
    requires k + 1 < |w| && NonNegative(w)
    requires IsPartitionOf(q, k, |w|) && NonSingletonsFit(q, w, cap) && |q| < |w|
    requires i < |q| && |q[i]| >= 2 && q[i][0] == k
    ensures r == q[i := q[i][1..]] && |r| < |w|
    ensures IsPartitionOf(r, k + 1, |w|) && NonSingletonsFit(r, w, cap)
    ensures InRange(q[i], |w|) && BoxWeight(q[i], w) <= cap
  {
    r := q[i := q[i][1..]];
    DropHeadPartition(q, i, k, |w|);
    DropHeadFits(q, i, w, cap);
  }

  /** With no negative weight, taking the first item out of a block keeps every
      multi-item block within capacity. */
  lemma DropHeadFits(q: Partition, i: nat, w: seq<real>, cap: real)
    requires NonSingletonsFit(q, w, cap) && NonNegative(w) && i < |q| && |q[i]| >= 2
    ensures InRange(q[i], |w|) && BoxWeight(q[i], w) <= cap
    ensures NonSingletonsFit(q[i := q[i][1..]], w, cap)
  {
    var b := q[i][1..];
    assert q[i] == [q[i][0]] + b;
    assert BoxWeight(q[i], w) == w[q[i][0]] + BoxWeight(b, w);
  }

  // ---------------------------------------------------------------------------
  // The whole search, over all n = |w| items

  /** Every packing the search yields partitions 0 .. n-1, each of its blocks of
      two or more items fits the capacity, and it has fewer blocks than items
      whenever there are at least two items. */
  lemma ChoicesArePartitions(w: seq<real>, cap: real)
    requires |w| >= 1
    ensures forall q :: q in GenerateAllValidChoices(w, cap) ==>
      IsPartitionOf(q, 0, |w|) && NonSingletonsFit(q, w, cap) && (|w| >= 2 ==> |q| < |w|)
  {
    SubGeneratorSound(w, cap, 0);
  }

  /** The search never yields the same packing twice. */
  lemma ChoicesDistinct(w: seq<real>, cap: real)
    requires |w| >= 1
    ensures Distinct(GenerateAllValidChoices(w, cap))
  {
    SubGeneratorDistinct(w, cap, 0);
  }

  /** With no negative weight, every partition of 0 .. n-1 with fewer than n
      blocks whose blocks of two or more items pass the capacity test is yielded,
      with its blocks in some order. */
  lemma ChoicesComplete(w: seq<real>, cap: real, q: Partition)
    requires |w| >= 1 && NonNegative(w)
    requires IsPartitionOf(q, 0, |w|) && NonSingletonsFit(q, w, cap) && |q| < |w|
    ensures exists p :: p in GenerateAllValidChoices(w, cap) && multiset(p) == multiset(q)
  {
    var p := SubGeneratorComplete(w, cap, 0, q);
    assert p in GenerateAllValidChoices(w, cap);
  }

  /** With a negative weight the search can miss a partition that fits: [0, 1, 2]
      weighs 1.0 against a capacity of 1.0, but its tail [1, 2] does not fit, so it
      is never built. */
  lemma NegativeWeightEscapesSearch()
    ensures IsPartitionOf([[0, 1, 2]], 0, 3)
    ensures BoxWeight([0, 1, 2], [-1.0, 1.0, 1.0]) <= 1.0
    ensures GenerateAllValidChoices([-1.0, 1.0, 1.0], 1.0) == [[[0, 1], [2]], [[1], [0, 2]]]
  {
    WholeBlockPartition();
    var w := [-1.0, 1.0, 1.0];
    BoxWeightPair(1, 2, w);
    BoxWeightCons(0, [1, 2], w);
    assert [0] + [1, 2] == [0, 1, 2];
    NegativeWeightLevels();
  }

  lemma WholeBlockPartition()
    ensures IsPartitionOf([[0, 1, 2]], 0, 3)
  {
    var b: Block := [0, 1, 2];
    var p: Partition := [b];
    assert p[0] == b;
    assert b[0] in p[0] && b[1] in p[0] && b[2] in p[0];
    assert InSomeBlock(p, 0) && InSomeBlock(p, 1) && InSomeBlock(p, 2);
  }

  /** The search on weights [-1.0, 1.0, 1.0] and capacity 1.0, level by level. */
  lemma NegativeWeightLevels()
    ensures SubGenerator([-1.0, 1.0, 1.0], 1.0, 1) == [[[1], [2]]]
    ensures GenerateAllValidChoices([-1.0, 1.0, 1.0], 1.0) == [[[0, 1], [2]], [[1], [0, 2]]]
  {
    var w := [-1.0, 1.0, 1.0];
    BoxWeightPair(1, 2, w);
    BoxWeightPair(0, 1, w);
    BoxWeightPair(0, 2, w);
    assert SubGenerator(w, 1.0, 2) == [[[2]]];
    assert [1] + [2] == [1, 2] && [0] + [1] == [0, 1] && [0] + [2] == [0, 2];
    assert !EnlargedFits([[2]], 0, 1, w, 1.0);
    assert Insertions([[2]], 1, w, 1.0, 0) == [];
    assert [[1]] + [[2]] == [[1], [2]];
    assert Extend([[2]], 1, w, 1.0) == [[[1], [2]]];
    assert SubGenerator(w, 1.0, 1) == [[[1], [2]]];
    assert EnlargedFits([[1], [2]], 0, 0, w, 1.0);
    assert EnlargedFits([[1], [2]], 1, 0, w, 1.0);
    assert InsertAt([[1], [2]], 0, 0) == [[0, 1], [2]];
    assert InsertAt([[1], [2]], 1, 0) == [[1], [0, 2]];
    assert Insertions([[1], [2]], 0, w, 1.0, 1) == [[[1], [0, 2]]];
    assert Insertions([[1], [2]], 0, w, 1.0, 0) == [[[0, 1], [2]], [[1], [0, 2]]];
    assert Extend([[1], [2]], 0, w, 1.0) == [[[0, 1], [2]], [[1], [0, 2]]];
    assert ExtendAll([[[1], [2]]], 0, w, 1.0) == Extend([[1], [2]], 0, w, 1.0);
  }
}
