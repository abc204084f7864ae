/** The greedy First Fit packer: items are placed one by one, in index order, into
    the first open bin with enough room left, or into a new bin when none has. */
module FirstFit {
  import opened Bins

  /** The open bins and the room left in each, bin for bin. */
  datatype Packing = Packing(boxes: seq<Block>, room: seq<real>)

  predicate Aligned(P: Packing) {
    |P.boxes| == |P.room|
  }

  /** The first slot at or after b whose room is at least x, or |room| when none is. */
  function FirstSlot(room: seq<real>, x: real, b: nat): (s: nat)
    requires b <= |room|
    ensures b <= s <= |room|
    ensures s < |room| ==> x <= room[s]
    ensures forall j :: b <= j < s ==> room[j] < x
    decreases |room| - b
  {
    if b == |room| then b
    else if x <= room[b] then b
    else FirstSlot(room, x, b + 1)
  }

  /** Item x goes into the first bin with room for it; if there is none, a new bin
      holding only x is opened after the others with the capacity minus x's weight
      as its room. */
  function Place(P: Packing, x: nat, w: seq<real>, cap: real): (r: Packing)
    requires Aligned(P) && x < |w|
    ensures Aligned(r) && |P.boxes| <= |r.boxes| <= |P.boxes| + 1
    ensures |r.boxes| == |P.boxes| + 1 ==> r.boxes[|P.boxes|] == [x]
  {
    var s := FirstSlot(P.room, w[x], 0);
    if s < |P.room| then Packing(P.boxes[s := P.boxes[s] + [x]], P.room[s := P.room[s] - w[x]])
    else Packing(P.boxes + [[x]], P.room + [cap - w[x]])
  }

  /** Place follows the First Fit rule: the item joins the lowest-numbered bin whose
      room is at least its weight, taking that weight off the room, and opens a new
      bin only when every bin's room is below its weight. */
  lemma PlaceIsFirstFit(P: Packing, x: nat, w: seq<real>, cap: real)
    requires Aligned(P) && x < |w|
    ensures || (exists s :: 0 <= s < |P.boxes| && P.room[s] >= w[x]
                  && (forall j :: 0 <= j < s ==> P.room[j] < w[x])
                  && Place(P, x, w, cap).boxes == P.boxes[s := P.boxes[s] + [x]]
                  && Place(P, x, w, cap).room == P.room[s := P.room[s] - w[x]])
            || ((forall j :: 0 <= j < |P.room| ==> P.room[j] < w[x])
                  && Place(P, x, w, cap).boxes == P.boxes + [[x]]
                  && Place(P, x, w, cap).room == P.room + [cap - w[x]])
  {
    var s := FirstSlot(P.room, w[x], 0);
    if s < |P.room| {
      assert P.room[s] >= w[x] && forall j :: 0 <= j < s ==> P.room[j] < w[x];
    }
  }

  /** The packing First Fit has built after placing the items 0 .. t-1. */
  function PackFirst(t: nat, w: seq<real>, cap: real): (r: Packing)
    requires t <= |w|
    ensures Aligned(r) && |r.boxes| <= t
    ensures t > 0 ==> |r.boxes| >= 1
  {
    if t == 0 then Packing([], [])
    else
      var P := PackFirst(t - 1, w, cap);
      assert |P.boxes| <= t - 1;
      Place(P, t - 1, w, cap)
  }

  /** The longest prefix of the box whose items are all below x: for a box filled in
      increasing order, the items it held when x was placed. */
  function Before(box: Block, x: nat): (r: Block)
    ensures |r| <= |box| && r == box[..|r|]
    ensures forall j :: 0 <= j < |r| ==> box[j] < x
    ensures |r| < |box| ==> x <= box[|r|]
  {
    if |box| == 0 || x <= box[0] then [] else [box[0]] + Before(box[1..], x)
  }

  /** The room a box had left just before item x was placed. */
  function RoomBefore(box: Block, x: nat, w: seq<real>, cap: real): real
    requires InRange(box, |w|)
  {
    var b := Before(box, x);
    assert InRange(b, |w|) by {
      forall j | 0 <= j < |b| ensures b[j] < |w| {
        assert b[j] == box[j];
      }
    }
    cap - BoxWeight(b, w)
  }

  /** The First Fit placement rule stated on the final packing alone: no earlier
      bin had room for an item when it was placed, and every item that is not the
      first of its bin fitted in the room its bin had left. */
  ghost predicate FirstFitRule(p: Partition, w: seq<real>, cap: real)
    requires BlocksInRange(p, |w|)
  {
    NoEarlierRoom(p, w, cap) && FitsWhereJoined(p, w, cap)
  }

  /** No bin before an item's own had room for it when it was placed. */
  ghost predicate NoEarlierRoom(p: Partition, w: seq<real>, cap: real)
    requires BlocksInRange(p, |w|)
  {
    forall b, c, j :: 0 <= c < b < |p| && 0 <= j < |p[b]| ==>
      RoomBefore(p[c], p[b][j], w, cap) < w[p[b][j]]
  }

  /** Every item after the first of its bin fitted in the room the bin had left. */
  ghost predicate FitsWhereJoined(p: Partition, w: seq<real>, cap: real)
    requires BlocksInRange(p, |w|)
  {
    forall b, j :: 0 <= b < |p| && 0 < j < |p[b]| ==>
      w[p[b][j]] <= RoomBefore(p[b], p[b][j], w, cap)
  }

  /** Bins are listed in the order they were opened. */
  ghost predicate OpenedInOrder(p: Partition) {
    forall b, c :: 0 <= c < b < |p| && |p[b]| > 0 && |p[c]| > 0 ==> p[c][0] < p[b][0]
  }

  lemma BeforeAll(box: Block, x: nat)
    requires forall j :: 0 <= j < |box| ==> box[j] < x
    ensures Before(box, x) == box
  {
  }

  lemma {:induction false} BeforeAppend(box: Block, x: nat, y: nat)
    requires y <= x
    ensures Before(box + [x], y) == Before(box, y)
    decreases |box|
  {
    if |box| > 0 && box[0] < y {
      assert (box + [x])[1..] == box[1..] + [x];
      BeforeAppend(box[1..], x, y);
    }
  }

  /** Adding x at the end of block s keeps a partition of 0 .. x-1 a partition, now of 0 .. x. */
  lemma JoinBlockPartition(p: Partition, s: nat, x: nat)
    requires IsPartitionOf(p, 0, x) && s < |p|
    ensures IsPartitionOf(p[s := p[s] + [x]], 0, x + 1)
  {
    var q := p[s := p[s] + [x]];
    forall i | 0 <= i < |q| ensures |q[i]| > 0 && Increasing(q[i]) {
      if i == s {
        forall a, b | 0 <= a < b < |q[i]| ensures q[i][a] < q[i][b] {
          assert p[s][a] in p[s];
          if b < |p[s]| { assert q[i][b] == p[s][b]; }
        }
      }
    }
    forall i, y | 0 <= i < |q| && y in q[i] ensures 0 <= y < x + 1 {
      if y != x { assert y in p[i]; }
    }
    forall y | 0 <= y < x + 1 ensures InSomeBlock(q, y) {
      if y == x {
        assert x in q[s];
      } else {
        assert InSomeBlock(p, y);
        var i :| 0 <= i < |p| && y in p[i];
        assert y in q[i];
      }
    }
    forall i, j, y | 0 <= i < |q| && 0 <= j < |q| && y in q[i] && y in q[j] ensures i == j {
      if y == x {
        assert x !in p[i] || i == s;
        assert x !in p[j] || j == s;
      } else {
        assert y in p[i] && y in p[j];
      }
    }
  }

  /** Opening a new bin [x] after a partition of 0 .. x-1 gives a partition of 0 .. x. */
  lemma NewBlockPartition(p: Partition, x: nat)
    requires IsPartitionOf(p, 0, x)
    ensures IsPartitionOf(p + [[x]], 0, x + 1)
  {
    var q := p + [[x]];
    forall i, y | 0 <= i < |q| && y in q[i] ensures 0 <= y < x + 1 {
      if i < |p| { assert y in p[i]; }
    }
    forall y | 0 <= y < x + 1 ensures InSomeBlock(q, y) {
      if y == x {
        assert x in q[|p|];
      } else {
        assert InSomeBlock(p, y);
        var i :| 0 <= i < |p| && y in p[i];
        assert y in q[i];
      }
    }
    forall i, j, y | 0 <= i < |q| && 0 <= j < |q| && y in q[i] && y in q[j] ensures i == j {
      if i < |p| { assert y in p[i]; }
      if j < |p| { assert y in p[j]; }
    }
  }

  /** What holds of the packing after every step: a partition of the items placed
      so far, each room equal to the capacity minus the bin's weight, and every bin
      that was ever joined still within capacity. */
  ghost predicate Consistent(P: Packing, t: nat, w: seq<real>, cap: real) {
    && Aligned(P)
    && IsPartitionOf(P.boxes, 0, t)
    && BlocksInRange(P.boxes, |w|)
    && (forall b :: 0 <= b < |P.boxes| ==> P.room[b] == cap - BoxWeight(P.boxes[b], w))
    && (forall b :: 0 <= b < |P.boxes| && |P.boxes[b]| >= 2 ==> 0.0 <= P.room[b])
  }

  /** Placing item x joins the first bin with room, keeping the packing consistent. */
  lemma JoinConsistent(P: Packing, s: nat, x: nat, w: seq<real>, cap: real)
    requires Consistent(P, x, w, cap) && x < |w| && s < |P.boxes| && P.room[s] >= w[x]
    ensures Consistent(Packing(P.boxes[s := P.boxes[s] + [x]], P.room[s := P.room[s] - w[x]]), x + 1, w, cap)
  {
    var r := Packing(P.boxes[s := P.boxes[s] + [x]], P.room[s := P.room[s] - w[x]]);
    JoinBlockPartition(P.boxes, s, x);
    BoxWeightAppend(P.boxes[s], x, w);
    PartitionInRange(r.boxes, 0, x + 1, |w|);
  }

  /** Placing item x in a new bin keeps the packing consistent. */
  lemma OpenConsistent(P: Packing, x: nat, w: seq<real>, cap: real)
    requires Consistent(P, x, w, cap) && x < |w|
    ensures Consistent(Packing(P.boxes + [[x]], P.room + [cap - w[x]]), x + 1, w, cap)
  {
    var r := Packing(P.boxes + [[x]], P.room + [cap - w[x]]);
    NewBlockPartition(P.boxes, x);
    assert BoxWeight([x], w) == w[x] + BoxWeight([], w);
    PartitionInRange(r.boxes, 0, x + 1, |w|);
  }

  lemma {:induction false} PackFirstConsistent(t: nat, w: seq<real>, cap: real)
    requires t <= |w|
    ensures Consistent(PackFirst(t, w, cap), t, w, cap)
  {
    if t > 0 {
      var x := t - 1;
      var P := PackFirst(x, w, cap);
      PackFirstConsistent(x, w, cap);
      var r := Place(P, x, w, cap);
      PlaceIsFirstFit(P, x, w, cap);
      if |r.boxes| == |P.boxes| {
        var s :| 0 <= s < |P.boxes| && P.room[s] >= w[x]
                 && r.boxes == P.boxes[s := P.boxes[s] + [x]]
                 && r.room == P.room[s := P.room[s] - w[x]];
        JoinConsistent(P, s, x, w, cap);
      } else {
        OpenConsistent(P, x, w, cap);
      }
    }
  }

  /** Every placed item precedes x. */
  ghost predicate AllBelow(p: Partition, x: nat) {
    forall b, j :: 0 <= b < |p| && 0 <= j < |p[b]| ==> p[b][j] < x
  }

  /** Just before item x is placed, every bin's room is the room it had before x. */
  lemma CurrentRooms(P: Packing, x: nat, w: seq<real>, cap: real)
    requires Consistent(P, x, w, cap)
    ensures AllBelow(P.boxes, x)
    ensures forall c :: 0 <= c < |P.boxes| ==> RoomBefore(P.boxes[c], x, w, cap) == P.room[c]
  {
    forall b, j | 0 <= b < |P.boxes| && 0 <= j < |P.boxes[b]| ensures P.boxes[b][j] < x {
      assert P.boxes[b][j] in P.boxes[b];
    }
    forall c | 0 <= c < |P.boxes| ensures RoomBefore(P.boxes[c], x, w, cap) == P.room[c] {
      BeforeAll(P.boxes[c], x);
    }
  }

  /** Items placed after y do not change the room a bin had before y. */
  lemma RoomBeforeAppend(box: Block, x: nat, y: nat, w: seq<real>, cap: real)
    requires InRange(box, |w|) && x < |w| && y <= x
    ensures InRange(box + [x], |w|)
    ensures RoomBefore(box + [x], y, w, cap) == RoomBefore(box, y, w, cap)
  {
    BoxWeightAppend(box, x, w);
    BeforeAppend(box, x, y);
  }

  lemma JoinInRange(p: Partition, s: nat, x: nat, n: nat)
    requires BlocksInRange(p, n) && s < |p| && x < n
    ensures BlocksInRange(p[s := p[s] + [x]], n)
  {
    InRangeAppend(p[s], x, n);
  }

  lemma InRangeAppend(box: Block, x: nat, n: nat)
    requires InRange(box, n) && x < n
    ensures InRange(box + [x], n)
  {
    assert forall j :: 0 <= j < |box| ==> (box + [x])[j] == box[j];
  }

  lemma JoinNoEarlier(p: Partition, room: seq<real>, s: nat, x: nat, w: seq<real>, cap: real)
    requires BlocksInRange(p, |w|) && x < |w| && s < |p| && |room| == |p|
    requires AllBelow(p, x)
    requires forall c :: 0 <= c < |p| ==> RoomBefore(p[c], x, w, cap) == room[c]
    requires forall j :: 0 <= j < s ==> room[j] < w[x]
    requires NoEarlierRoom(p, w, cap)
    ensures BlocksInRange(p[s := p[s] + [x]], |w|)
    ensures NoEarlierRoom(p[s := p[s] + [x]], w, cap)
  {
    var q := p[s := p[s] + [x]];
    JoinInRange(p, s, x, |w|);
    forall b, c, j | 0 <= c < b < |q| && 0 <= j < |q[b]|
      ensures RoomBefore(q[c], q[b][j], w, cap) < w[q[b][j]]
    {
      if b == s && j == |p[s]| {
        assert q[c] == p[c];
      } else {
        assert q[b][j] == p[b][j];
        if c == s { RoomBeforeAppend(p[s], x, q[b][j], w, cap); }
      }
    }
  }

  lemma JoinFits(p: Partition, room: seq<real>, s: nat, x: nat, w: seq<real>, cap: real)
    requires BlocksInRange(p, |w|) && x < |w| && s < |p| && |room| == |p|
    requires AllBelow(p, x)
    requires RoomBefore(p[s], x, w, cap) == room[s] && room[s] >= w[x]
    requires FitsWhereJoined(p, w, cap)
    ensures BlocksInRange(p[s := p[s] + [x]], |w|)
    ensures FitsWhereJoined(p[s := p[s] + [x]], w, cap)
  {
    var q := p[s := p[s] + [x]];
    JoinInRange(p, s, x, |w|);
    forall b, j | 0 <= b < |q| && 0 < j < |q[b]|
      ensures w[q[b][j]] <= RoomBefore(q[b], q[b][j], w, cap)
    {
      if b == s {
        RoomBeforeAppend(p[s], x, q[b][j], w, cap);
      }
    }
  }

  lemma OpenNoEarlier(p: Partition, room: seq<real>, x: nat, w: seq<real>, cap: real)
    requires BlocksInRange(p, |w|) && x < |w| && |room| == |p|
    requires forall c :: 0 <= c < |p| ==> RoomBefore(p[c], x, w, cap) == room[c]
    requires forall j :: 0 <= j < |room| ==> room[j] < w[x]
    requires NoEarlierRoom(p, w, cap)
    ensures BlocksInRange(p + [[x]], |w|)
    ensures NoEarlierRoom(p + [[x]], w, cap)
  {
    var q := p + [[x]];
    forall b, c, j | 0 <= c < b < |q| && 0 <= j < |q[b]|
      ensures RoomBefore(q[c], q[b][j], w, cap) < w[q[b][j]]
    {
      assert q[c] == p[c];
      if b < |p| { assert q[b] == p[b]; }
    }
  }

  lemma OpenFits(p: Partition, x: nat, w: seq<real>, cap: real)
    requires BlocksInRange(p, |w|) && x < |w|
    requires FitsWhereJoined(p, w, cap)
    ensures BlocksInRange(p + [[x]], |w|)
    ensures FitsWhereJoined(p + [[x]], w, cap)
  {
    var q := p + [[x]];
    forall b, j | 0 <= b < |q| && 0 < j < |q[b]|
      ensures w[q[b][j]] <= RoomBefore(q[b], q[b][j], w, cap)
    {
      assert q[b] == p[b];
    }
  }

  lemma JoinOrder(p: Partition, s: nat, x: nat)
    requires s < |p| && |p[s]| > 0 && OpenedInOrder(p)
    ensures OpenedInOrder(p[s := p[s] + [x]])
  {
    var q := p[s := p[s] + [x]];
    assert forall b :: 0 <= b < |p| && |p[b]| > 0 ==> q[b][0] == p[b][0];
  }

  lemma OpenOrder(p: Partition, x: nat)
    requires AllBelow(p, x) && OpenedInOrder(p)
    ensures OpenedInOrder(p + [[x]])
  {
    var q := p + [[x]];
    assert forall b :: 0 <= b < |p| ==> q[b] == p[b];
  }

  /** Placing one more item keeps the placement rule and the opening order. */
  lemma PlaceRule(P: Packing, x: nat, w: seq<real>, cap: real)
    requires Consistent(P, x, w, cap) && x < |w|
    requires FirstFitRule(P.boxes, w, cap) && OpenedInOrder(P.boxes)
    ensures BlocksInRange(Place(P, x, w, cap).boxes, |w|)
    ensures FirstFitRule(Place(P, x, w, cap).boxes, w, cap)
    ensures OpenedInOrder(Place(P, x, w, cap).boxes)
  {
    CurrentRooms(P, x, w, cap);
    var r := Place(P, x, w, cap);
    PlaceIsFirstFit(P, x, w, cap);
    if |r.boxes| == |P.boxes| {
      var s :| 0 <= s < |P.boxes| && P.room[s] >= w[x]
               && (forall j :: 0 <= j < s ==> P.room[j] < w[x])
               && r.boxes == P.boxes[s := P.boxes[s] + [x]];
      JoinNoEarlier(P.boxes, P.room, s, x, w, cap);
      JoinFits(P.boxes, P.room, s, x, w, cap);
      JoinOrder(P.boxes, s, x);
    } else {
      OpenNoEarlier(P.boxes, P.room, x, w, cap);
      OpenFits(P.boxes, x, w, cap);
      OpenOrder(P.boxes, x);
    }
  }

  /** The packing built by First Fit obeys the placement rule, bins in opening order. */
  lemma {:induction false} PackFirstRule(t: nat, w: seq<real>, cap: real)
    requires t <= |w|
    ensures BlocksInRange(PackFirst(t, w, cap).boxes, |w|)
    ensures FirstFitRule(PackFirst(t, w, cap).boxes, w, cap)
    ensures OpenedInOrder(PackFirst(t, w, cap).boxes)
  {
    if t == 0 {
      assert PackFirst(t, w, cap).boxes == [];
    } else {
      PackFirstRule(t - 1, w, cap);
      PackFirstStepRule(t - 1, w, cap);
    }
  }

  lemma PackFirstStepRule(t: nat, w: seq<real>, cap: real)
    requires t < |w|
    requires BlocksInRange(PackFirst(t, w, cap).boxes, |w|)
    requires FirstFitRule(PackFirst(t, w, cap).boxes, w, cap)
    requires OpenedInOrder(PackFirst(t, w, cap).boxes)
    ensures BlocksInRange(PackFirst(t + 1, w, cap).boxes, |w|)
    ensures FirstFitRule(PackFirst(t + 1, w, cap).boxes, w, cap)
    ensures OpenedInOrder(PackFirst(t + 1, w, cap).boxes)
  {
    var P := PackFirst(t, w, cap);
    assert PackFirst(t + 1, w, cap) == Place(P, t, w, cap);
    PackFirstConsistent(t, w, cap);
    PlaceRule(P, t, w, cap);
  }

  /** Total weight of the items in all bins, summed bin by bin. */
  function PackedWeight(p: Partition, w: seq<real>): real
    requires BlocksInRange(p, |w|)
  {
    if |p| == 0 then 0.0 else PackedWeight(p[..|p| - 1], w) + BoxWeight(p[|p| - 1], w)
  }

  /** With no negative weight, any two bins of a First Fit packing together weigh
      more than the capacity: the later bin's first item did not fit in the room
      the earlier bin had left. */
  lemma TwoBinsOverflow(p: Partition, w: seq<real>, cap: real, c: nat, b: nat)
    requires BlocksInRange(p, |w|) && NoEarlierRoom(p, w, cap) && NonNegative(w)
    requires c < b < |p| && |p[b]| > 0
    ensures cap < BoxWeight(p[c], w) + BoxWeight(p[b], w)
  {
    var x := p[b][0];
    assert RoomBefore(p[c], x, w, cap) < w[x];
    var before := Before(p[c], x);
    BoxWeightPrefix(p[c], |before|, w);
    BoxWeightNonNegative(p[b][1..], w);
  }

  /** n times the capacity, as a sum of n terms. */
  function Times(n: nat, cap: real): real {
    if n == 0 then 0.0 else Times(n - 1, cap) + cap
  }

  /** Each bin and the next together weigh more than the capacity. */
  ghost predicate NeighboursOverflow(p: Partition, w: seq<real>, cap: real)
    requires BlocksInRange(p, |w|)
  {
    forall b :: 1 <= b < |p| ==> cap < BoxWeight(p[b - 1], w) + BoxWeight(p[b], w)
  }

  lemma NeighboursOverflowFromRule(p: Partition, w: seq<real>, cap: real)
    requires BlocksInRange(p, |w|) && NoEarlierRoom(p, w, cap) && NonNegative(w)
    requires forall b :: 0 <= b < |p| ==> |p[b]| > 0
    ensures NeighboursOverflow(p, w, cap)
  {
    forall b | 1 <= b < |p| ensures cap < BoxWeight(p[b - 1], w) + BoxWeight(p[b], w) {
      TwoBinsOverflow(p, w, cap, b - 1, b);
    }
  }

  lemma {:induction false} OverflowPrefix(p: Partition, w: seq<real>, cap: real, k: nat)
    requires BlocksInRange(p, |w|) && NeighboursOverflow(p, w, cap) && NonNegative(w)
    requires 1 <= k <= |p|
    ensures BlocksInRange(p[..k], |w|)
    ensures Times(k - 1, cap) <= 2.0 * PackedWeight(p[..k], w) - BoxWeight(p[k - 1], w)
    ensures k >= 2 ==> Times(k - 1, cap) < 2.0 * PackedWeight(p[..k], w) - BoxWeight(p[k - 1], w)
  {
    assert forall b :: 0 <= b < k ==> p[..k][b] == p[b];
    assert p[..k][..k - 1] == p[..k - 1];
    assert PackedWeight(p[..k], w) == PackedWeight(p[..k - 1], w) + BoxWeight(p[k - 1], w);
    if k == 1 {
      BoxWeightNonNegative(p[0], w);
    } else {
      OverflowPrefix(p, w, cap, k - 1);
    }
  }

  /** With no negative weight, First Fit opens fewer than 2W/C + 1 bins, W being
      the total weight packed and C the capacity. */
  lemma FirstFitBinBound(p: Partition, w: seq<real>, cap: real)
    requires BlocksInRange(p, |w|) && NoEarlierRoom(p, w, cap) && NonNegative(w)
    requires forall b :: 0 <= b < |p| ==> |p[b]| > 0
    ensures |p| >= 2 ==> Times(|p| - 1, cap) < 2.0 * PackedWeight(p, w)
  {
    if |p| >= 2 {
      NeighboursOverflowFromRule(p, w, cap);
      var k := |p|;
      OverflowPrefix(p, w, cap, k);
      assert p[..k] == p;
      BoxWeightNonNegative(p[k - 1], w);
    }
  }

  /** Where Python's list.index finds v: its first occurrence. */
  function FirstIndex<T(==)>(s: seq<T>, v: T): (i: nat)
    requires v in s
    ensures i < |s| && s[i] == v && v !in s[..i]
  {
    if s[0] == v then 0
    else
      var i := FirstIndex(s[1..], v);
      assert s[..i + 1] == [s[0]] + s[1..][..i];
      i + 1
  }

  /** Python's list.remove: drops the first element equal to v. */
  function RemoveFirst<T(==)>(s: seq<T>, v: T): (r: seq<T>)
    requires v in s
    ensures |r| == |s| - 1
  {
    if s[0] == v then s[1..] else [s[0]] + RemoveFirst(s[1..], v)
  }

  /** list.remove leaves the sequence without its first occurrence of v. */
  lemma {:induction false} RemoveFirstSplit<T>(s: seq<T>, v: T)
    requires v in s
    ensures RemoveFirst(s, v) == s[..FirstIndex(s, v)] + s[FirstIndex(s, v) + 1..]
  {
    if s[0] == v {
      assert FirstIndex(s, v) == 0;
      assert s[..0] + s[1..] == s[1..];
    } else {
      var t := s[1..];
      RemoveFirstSplit(t, v);
      var j := FirstIndex(t, v);
      assert FirstIndex(s, v) == j + 1;
      assert RemoveFirst(s, v) == [s[0]] + (t[..j] + t[j + 1..]);
      assert s[..j + 1] == [s[0]] + t[..j];
      assert s[j + 2..] == t[j + 1..];
    }
  }

  /** One pass of the outer loop of First Fit: scan the bins in use, 0 .. inUse-1,
      for the first whose room is at least the item's weight and add the item
      there; if the item was not placed, it opens bin number inUse. */
  method PlaceItem(boxPacking: seq<Block>, room: seq<real>, inUse: nat, placed: set<nat>,
                   item: nat, w: seq<real>, cap: real)
    returns (newPacking: seq<Block>, newRoom: seq<real>, newInUse: nat, newPlaced: set<nat>)
    requires |boxPacking| == |room| && inUse < |room| && item < |w| && item !in placed
    requires forall j :: inUse <= j < |boxPacking| ==> boxPacking[j] == []
    ensures |newPacking| == |boxPacking| && |newRoom| == |room| && newInUse <= |room|
    ensures Packing(newPacking[..newInUse], newRoom[..newInUse])
            == Place(Packing(boxPacking[..inUse], room[..inUse]), item, w, cap)
    ensures forall j :: newInUse <= j < |newPacking| ==> newPacking[j] == []
    ensures newPlaced == placed + {item}
  {
    ghost var P := Packing(boxPacking[..inUse], room[..inUse]);
    newPacking, newRoom, newInUse, newPlaced := boxPacking, room, inUse, placed;
    var box := 0;
    while box < inUse
      invariant box <= inUse && item !in newPlaced && newPlaced == placed
      invariant newPacking == boxPacking && newRoom == room
      invariant forall j :: 0 <= j < box ==> room[j] < w[item]
    {
      if room[box] >= w[item] {
        assert FirstSlot(P.room, w[item], 0) == box;
        newPacking := boxPacking[box := boxPacking[box] + [item]];
        newPlaced := placed + {item};
        newRoom := room[box := room[box] - w[item]];
        assert newPacking[..inUse] == P.boxes[box := P.boxes[box] + [item]];
        assert newRoom[..inUse] == P.room[box := P.room[box] - w[item]];
        break;
      }
      box := box + 1;
    }
    if item !in newPlaced {
      assert FirstSlot(P.room, w[item], 0) == |P.room|;
      newRoom := room[inUse := cap - w[item]];
      newPlaced := placed + {item};
      newPacking := boxPacking[inUse := boxPacking[inUse] + [item]];
      newInUse := inUse + 1;
      assert boxPacking[inUse] + [item] == [item];
      assert newPacking[..newInUse] == P.boxes + [[item]];
      assert newRoom[..newInUse] == P.room + [cap - w[item]];
    }
  }

  /** First Fit over items 0 .. count-1: count bins are set aside with the full
      capacity as room and each item in turn is placed; the bins left empty are
      then removed. */
  method FirstFit(count: nat, w: seq<real>, cap: real) returns (packing: Partition, boxes: nat)
    requires count <= |w|
    ensures packing == PackFirst(count, w, cap).boxes
    ensures boxes == |packing| <= count
    ensures IsPartitionOf(packing, 0, count) && NonSingletonsFit(packing, w, cap)
    ensures BlocksInRange(packing, |w|) && FirstFitRule(packing, w, cap)
  {
    var boxPacking;
    boxPacking, boxes := PackItems(count, w, cap);
    ghost var result := PackFirst(count, w, cap).boxes;
    PackFirstFacts(count, w, cap);
    assert |result| == boxes;
    assert forall j :: 0 <= j < boxes ==> boxPacking[j] == result[j];
    packing := RemoveEmptyBins(boxPacking, boxes);
  }

  /** The packing loop of First Fit, before the empty bins are removed: the first
      `boxes` of the count bins set aside hold First Fit's packing, the rest stay empty. */
  method PackItems(count: nat, w: seq<real>, cap: real) returns (boxPacking: seq<Block>, boxes: nat)
    requires count <= |w|
    ensures boxes <= |boxPacking| == count
    ensures boxPacking[..boxes] == PackFirst(count, w, cap).boxes
    ensures forall j :: boxes <= j < count ==> boxPacking[j] == []
  {
    boxPacking := seq(count, _ => []);
    boxes := 0;
    var room: seq<real> := seq(count, _ => cap);
    var used: set<nat> := {};
    for item := 0 to count
      invariant |boxPacking| == count && |room| == count && boxes <= item
      invariant Packing(boxPacking[..boxes], room[..boxes]) == PackFirst(item, w, cap)
      invariant forall j :: boxes <= j < count ==> boxPacking[j] == []
      invariant forall x :: x in used ==> x < item
    {
      ghost var next := Place(PackFirst(item, w, cap), item, w, cap);
      assert PackFirst(item + 1, w, cap) == next;
      boxPacking, room, boxes, used := PlaceItem(boxPacking, room, boxes, used, item, w, cap);
      assert Packing(boxPacking[..boxes], room[..boxes]) == next;
      assert boxes <= item + 1;
    }
    assert Packing(boxPacking[..boxes], room[..boxes]).boxes == boxPacking[..boxes];
  }

  /** What the method promises about the packing, gathered from the lemmas above. */
  lemma PackFirstFacts(t: nat, w: seq<real>, cap: real)
    requires t <= |w|
    ensures IsPartitionOf(PackFirst(t, w, cap).boxes, 0, t)
    ensures NonSingletonsFit(PackFirst(t, w, cap).boxes, w, cap)
    ensures BlocksInRange(PackFirst(t, w, cap).boxes, |w|)
    ensures FirstFitRule(PackFirst(t, w, cap).boxes, w, cap)
    ensures forall b :: 0 <= b < |PackFirst(t, w, cap).boxes| ==> PackFirst(t, w, cap).boxes[b] != []
  {
    var P := PackFirst(t, w, cap);
    PackFirstConsistent(t, w, cap);
    PackFirstRule(t, w, cap);
    assert forall b :: 0 <= b < |P.boxes| ==> |P.boxes[b]| > 0;
  }

  /** The clean-up after packing: while some bin is empty, the first empty bin is
      removed. When the bins in use come first and are all non-empty, what remains
      is exactly those bins. */
  method RemoveEmptyBins(bins: seq<Block>, inUse: nat) returns (r: seq<Block>)
    requires inUse <= |bins|
    requires forall j :: 0 <= j < inUse ==> bins[j] != []
    requires forall j :: inUse <= j < |bins| ==> bins[j] == []
    ensures r == bins[..inUse]
    ensures [] !in r
  {
    r := bins;
    assert inUse < |r| ==> r[inUse] in r;
    while [] in r
      invariant inUse <= |r| && r[..inUse] == bins[..inUse]
      invariant forall j :: inUse <= j < |r| ==> r[j] == []
      invariant [] in r <==> inUse < |r|
      decreases |r|
    {
      ghost var before := r;
      RemoveFirstSplit(r, []);
      r := RemoveFirst(r, []);
      ghost var i := FirstIndex(before, []);
      assert forall j :: 0 <= j < inUse ==> before[j] == bins[j];
      assert inUse <= i;
      assert inUse < |r| ==> r[inUse] in r;
    }
    assert r == r[..inUse];
  }

  /** One step of First Fit, unfolded. */
  lemma PackFirstStep(t: nat, w: seq<real>, cap: real, P: Packing, s: nat, r: Packing)
    requires t < |w| && PackFirst(t, w, cap) == P
    requires s == FirstSlot(P.room, w[t], 0)
    requires s < |P.room| ==> r == Packing(P.boxes[s := P.boxes[s] + [t]], P.room[s := P.room[s] - w[t]])
    requires s == |P.room| ==> r == Packing(P.boxes + [[t]], P.room + [cap - w[t]])
    ensures PackFirst(t + 1, w, cap) == r
  {
  }

  /** n = 4, capacity 2, weights [1.0, 1.4, 0.6, 1.0]: bins {0, 2}, {1}, {3}. */
  lemma PackFirstOnFirstInstance()
    ensures PackFirst(4, [1.0, 1.4, 0.6, 1.0], 2.0) == Packing([[0, 2], [1], [3]], [0.4, 0.6, 1.0])
  {
    var w := [1.0, 1.4, 0.6, 1.0];
    PackFirstStep(0, w, 2.0, Packing([], []), 0, Packing([[0]], [1.0]));
    PackFirstStep(1, w, 2.0, Packing([[0]], [1.0]), 1, Packing([[0], [1]], [1.0, 0.6]));
    assert [0] + [2] == [0, 2];
    PackFirstStep(2, w, 2.0, Packing([[0], [1]], [1.0, 0.6]), 0, Packing([[0, 2], [1]], [0.4, 0.6]));
    PackFirstStep(3, w, 2.0, Packing([[0, 2], [1]], [0.4, 0.6]), 2, Packing([[0, 2], [1], [3]], [0.4, 0.6, 1.0]));
  }

  /** The weights of the second reference instance. */
  const SecondWeights: seq<real> := [0.5, 1.25, 1.0, 1.75, 0.75, 1.5]

  /** n = 6, capacity 2.5, weights SecondWeights: bins {0, 1, 4}, {2, 5}, {3}. */
  lemma PackFirstOnSecondInstance()
    ensures PackFirst(6, SecondWeights, 2.5).boxes == [[0, 1, 4], [2, 5], [3]]
  {
    var w := SecondWeights;
    SecondInstanceFirstFive();
    assert [2] + [5] == [2, 5];
    PackFirstStep(5, w, 2.5, Packing([[0, 1, 4], [2], [3]], [0.0, 1.5, 0.75]), 1,
                  Packing([[0, 1, 4], [2, 5], [3]], [0.0, 0.0, 0.75]));
  }

  lemma SecondInstanceFirstThree()
    ensures PackFirst(3, SecondWeights, 2.5) == Packing([[0, 1], [2]], [0.75, 1.5])
  {
    var w := SecondWeights;
    PackFirstStep(0, w, 2.5, Packing([], []), 0, Packing([[0]], [2.0]));
    assert [0] + [1] == [0, 1];
    PackFirstStep(1, w, 2.5, Packing([[0]], [2.0]), 0, Packing([[0, 1]], [0.75]));
    PackFirstStep(2, w, 2.5, Packing([[0, 1]], [0.75]), 1, Packing([[0, 1], [2]], [0.75, 1.5]));
  }

  lemma SecondInstanceFirstFive()
    ensures PackFirst(5, SecondWeights, 2.5) == Packing([[0, 1, 4], [2], [3]], [0.0, 1.5, 0.75])
  {
    var w := SecondWeights;
    SecondInstanceFirstThree();
    PackFirstStep(3, w, 2.5, Packing([[0, 1], [2]], [0.75, 1.5]), 2,
                  Packing([[0, 1], [2], [3]], [0.75, 1.5, 0.75]));
    assert [0, 1] + [4] == [0, 1, 4];
    PackFirstStep(4, w, 2.5, Packing([[0, 1], [2], [3]], [0.75, 1.5, 0.75]), 0,
                  Packing([[0, 1, 4], [2], [3]], [0.0, 1.5, 0.75]));
  }

  /** The first reference instance through the method: three bins. */
  method FirstFitFirstInstance() returns (packing: Partition, boxes: nat)
    ensures packing == [[0, 2], [1], [3]] && boxes == 3
  {
    PackFirstOnFirstInstance();
    packing, boxes := FirstFit(4, [1.0, 1.4, 0.6, 1.0], 2.0);
  }
}
