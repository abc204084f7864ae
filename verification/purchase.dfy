/** The optimal purchase plan: among all subsets of the suppliers, the pairwise
    compatible one offering the largest total weight, found by trying every
    subset in the order the enumeration builds them. */
module Purchase {
  import opened Powers
  import opened Sequences

  /** One subset of the suppliers together with its running weight sum. */
  datatype Record<S> = Record(choice: seq<S>, weight: real)

  /** Every supplier of the choice has a weight. */
  predicate Priced<S(==)>(choice: seq<S>, weights: map<S, real>) {
    forall x :: x in choice ==> x in weights
  }

  /** Total weight of a choice, added up in list order. */
  function WeightOf<S(==)>(choice: seq<S>, weights: map<S, real>): real
    requires Priced(choice, weights)
  {
    if |choice| == 0 then 0.0
    else
      assert forall x :: x in choice[..|choice| - 1] ==> x in choice;
      WeightOf(choice[..|choice| - 1], weights) + weights[choice[|choice| - 1]]
  }

  /** Every record of g with supplier s appended and its weight added on. */
  function Extend<S>(g: seq<Record<S>>, s: S, ws: real): (r: seq<Record<S>>)
    ensures |r| == |g|
    ensures forall i :: 0 <= i < |g| ==> r[i] == Record(g[i].choice + [s], g[i].weight + ws)
  {
    if |g| == 0 then [] else [Record(g[0].choice + [s], g[0].weight + ws)] + Extend(g[1..], s, ws)
  }

  /** The records built from the suppliers of p, in the order the enumeration adds
      them: for each supplier in turn, the records so far extended by it, then the
      supplier alone. */
  function Grow<S(==)>(p: seq<S>, weights: map<S, real>): (r: seq<Record<S>>)
    requires Priced(p, weights)
    ensures |r| + 1 == Pow(2, |p|)
    ensures forall i :: 0 <= i < |r| ==> |r[i].choice| > 0
  {
    if |p| == 0 then []
    else
      assert forall x :: x in p[..|p| - 1] ==> x in p;
      var g := Grow(p[..|p| - 1], weights);
      var s := p[|p| - 1];
      var h := |g| + 1;
      assert Mul(2, h) == h + (h + Mul(0, h));
      g + Extend(g, s, weights[s]) + [Record([s], weights[s])]
  }

  /** Every subset of the suppliers with its weight: 2^n records for n suppliers,
      the empty choice of weight zero last and only there. */
  function Combinations<S(==)>(p: seq<S>, weights: map<S, real>): (r: seq<Record<S>>)
    requires Priced(p, weights)
    ensures |r| == Pow(2, |p|)
    ensures r[|r| - 1] == Record([], 0.0)
    ensures forall i :: 0 <= i < |r| - 1 ==> |r[i].choice| > 0
  {
    Grow(p, weights) + [Record([], 0.0)]
  }

  /** The suppliers of p the mask keeps, in the order of p. */
  function Select<S>(p: seq<S>, mask: seq<bool>): (c: seq<S>)
    requires |mask| == |p|
    ensures |c| <= |p|
  {
    if |p| == 0 then []
    else Select(p[..|p| - 1], mask[..|p| - 1]) + (if mask[|p| - 1] then [p[|p| - 1]] else [])
  }

  /** A mask keeping nothing. */
  function NoneKept(n: nat): (m: seq<bool>)
    ensures |m| == n && forall i :: 0 <= i < n ==> !m[i]
  {
    seq(n, i => false)
  }

  lemma {:induction false} SelectNone<S>(p: seq<S>)
    ensures Select(p, NoneKept(|p|)) == []
  {
    if |p| > 0 {
      assert NoneKept(|p|)[..|p| - 1] == NoneKept(|p| - 1);
      SelectNone(p[..|p| - 1]);
    }
  }

  /** Select with one more supplier and one more mask bit. */
  lemma SelectSnoc<S>(p: seq<S>, s: S, mask: seq<bool>, b: bool)
    requires |mask| == |p|
    ensures Select(p + [s], mask + [b]) == Select(p, mask) + (if b then [s] else [])
  {
    assert (p + [s])[..|p|] == p;
    assert (mask + [b])[..|p|] == mask;
  }

  /** What holds of every record the enumeration builds: its choice is non-empty,
      draws on the suppliers only, and carries the summed weight of its suppliers. */
  ghost predicate WellBuilt<S>(r: Record<S>, p: seq<S>, weights: map<S, real>) {
    && |r.choice| > 0
    && (forall x :: x in r.choice ==> x in p)
    && Priced(r.choice, weights)
    && r.weight == WeightOf(r.choice, weights)
  }

  lemma ExtendedWellBuilt<S>(r: Record<S>, q: seq<S>, s: S, weights: map<S, real>)
    requires WellBuilt(r, q, weights) && s in weights
    ensures WellBuilt(Record(r.choice + [s], r.weight + weights[s]), q + [s], weights)
  {
    var c := r.choice + [s];
    assert c[..|c| - 1] == r.choice;
  }

  lemma SingleWellBuilt<S>(q: seq<S>, s: S, weights: map<S, real>)
    requires s in weights
    ensures WellBuilt(Record([s], weights[s]), q + [s], weights)
  {
    assert [s][..0] == [];
  }

  lemma WellBuiltWiden<S>(r: Record<S>, q: seq<S>, s: S, weights: map<S, real>)
    requires WellBuilt(r, q, weights)
    ensures WellBuilt(r, q + [s], weights)
  {
  }

  /** all is g, then g with s appended to every choice and ws added to every
      weight, then s alone: how one more supplier grows the records. */
  ghost predicate Doubled<S>(g: seq<Record<S>>, all: seq<Record<S>>, s: S, ws: real) {
    && |all| == 2 * |g| + 1
    && (forall i :: 0 <= i < |g| ==> all[i] == g[i])
    && (forall i :: |g| <= i < 2 * |g| ==>
          all[i] == Record(g[i - |g|].choice + [s], g[i - |g|].weight + ws))
    && all[2 * |g|] == Record([s], ws)
  }

  lemma GrowDoubled<S>(q: seq<S>, s: S, weights: map<S, real>)
    requires Priced(q + [s], weights)
    ensures Priced(q, weights) && s in weights
    ensures Doubled(Grow(q, weights), Grow(q + [s], weights), s, weights[s])
  {
    GrowSnoc(q, s, weights);
    var g := Grow(q, weights);
    DoubledOf(g, s, weights[s]);
  }

  lemma DoubledOf<S>(g: seq<Record<S>>, s: S, ws: real)
    ensures Doubled(g, g + Extend(g, s, ws) + [Record([s], ws)], s, ws)
  {
    var e := Extend(g, s, ws);
    var all := g + e + [Record([s], ws)];
    forall i | |g| <= i < 2 * |g|
      ensures all[i] == Record(g[i - |g|].choice + [s], g[i - |g|].weight + ws)
    {
      assert all[i] == e[i - |g|];
    }
  }

  lemma WellBuiltStep<S>(g: seq<Record<S>>, all: seq<Record<S>>, q: seq<S>, s: S,
                         weights: map<S, real>, i: nat)
    requires s in weights && Doubled(g, all, s, weights[s]) && i < |all|
    requires forall a :: 0 <= a < |g| ==> WellBuilt(g[a], q, weights)
    ensures WellBuilt(all[i], q + [s], weights)
  {
    if i < |g| {
      WellBuiltWiden(g[i], q, s, weights);
    } else if i < 2 * |g| {
      ExtendedWellBuilt(g[i - |g|], q, s, weights);
    } else {
      SingleWellBuilt(q, s, weights);
    }
  }

  lemma {:induction false} GrowWellBuilt<S>(p: seq<S>, weights: map<S, real>)
    requires Priced(p, weights)
    ensures forall i :: 0 <= i < |Grow(p, weights)| ==> WellBuilt(Grow(p, weights)[i], p, weights)
  {
    if |p| > 0 {
      var q, s := p[..|p| - 1], p[|p| - 1];
      assert q + [s] == p;
      GrowDoubled(q, s, weights);
      GrowWellBuilt(q, weights);
      var g, all := Grow(q, weights), Grow(p, weights);
      forall i | 0 <= i < |all| ensures WellBuilt(all[i], p, weights) {
        WellBuiltStep(g, all, q, s, weights, i);
      }
    }
  }

  /** Each record's weight is the sum of the weights of the suppliers it lists, and
      its suppliers are suppliers of p. */
  lemma CombinationsWeights<S>(p: seq<S>, weights: map<S, real>, i: nat)
    requires Priced(p, weights) && i < |Combinations(p, weights)|
    ensures forall x :: x in Combinations(p, weights)[i].choice ==> x in p
    ensures Priced(Combinations(p, weights)[i].choice, weights)
    ensures Combinations(p, weights)[i].weight == WeightOf(Combinations(p, weights)[i].choice, weights)
  {
    GrowWellBuilt(p, weights);
  }

  /** The records for suppliers q + [s] are those for q, then those for q each
      extended by s, then s alone. */
  lemma GrowSnoc<S>(q: seq<S>, s: S, weights: map<S, real>)
    requires Priced(q + [s], weights)
    ensures Priced(q, weights) && s in weights
    ensures Grow(q + [s], weights) ==
      Grow(q, weights) + Extend(Grow(q, weights), s, weights[s]) + [Record([s], weights[s])]
  {
    assert (q + [s])[..|q|] == q;
    assert forall x :: x in q ==> x in q + [s];
  }

  /** The suppliers record i of the enumeration lists are those some mask keeps. */
  lemma {:induction false} GrowSelection<S>(p: seq<S>, weights: map<S, real>, i: nat)
    returns (mask: seq<bool>)
    requires Priced(p, weights) && i < |Grow(p, weights)|
    ensures |mask| == |p| && Grow(p, weights)[i].choice == Select(p, mask)
  {
    var q, s := p[..|p| - 1], p[|p| - 1];
    assert q + [s] == p;
    GrowDoubled(q, s, weights);
    var g, all := Grow(q, weights), Grow(p, weights);
    assert Doubled(g, all, s, weights[s]);
    if i < |g| {
      var m := GrowSelection(q, weights, i);
      mask := DoubledSelection(q, s, g, all, weights[s], i, m);
    } else if i < 2 * |g| {
      var m := GrowSelection(q, weights, i - |g|);
      mask := DoubledSelection(q, s, g, all, weights[s], i, m);
    } else {
      SelectNone(q);
      mask := DoubledSelection(q, s, g, all, weights[s], i, NoneKept(|q|));
    }
  }

  /** One step of GrowSelection: a mask for the record of g that record i of the
      doubled enumeration copies, or the empty mask for the last record, gains
      one entry for s. */
  lemma DoubledSelection<S>(q: seq<S>, s: S, g: seq<Record<S>>, all: seq<Record<S>>,
                            ws: real, i: nat, m: seq<bool>) returns (mask: seq<bool>)
    requires Doubled(g, all, s, ws) && i < |all| && |m| == |q|
    requires i < |g| ==> g[i].choice == Select(q, m)
    requires |g| <= i < 2 * |g| ==> g[i - |g|].choice == Select(q, m)
    requires i == 2 * |g| ==> Select(q, m) == []
    ensures |mask| == |q| + 1 && all[i].choice == Select(q + [s], mask)
  {
    var b := i >= |g|;
    SelectSnoc(q, s, m, b);
    mask := m + [b];
    if i == 2 * |g| {
      assert all[i].choice == [] + [s];
    }
  }

  /** Soundness: every record lists the suppliers some mask keeps, in supplier order. */
  lemma RecordsAreSelections<S>(p: seq<S>, weights: map<S, real>, i: nat)
    requires Priced(p, weights) && i < |Combinations(p, weights)|
    ensures exists mask :: |mask| == |p| && Combinations(p, weights)[i].choice == Select(p, mask)
  {
    var all := Combinations(p, weights);
    if i == |all| - 1 {
      SelectNone(p);
      assert all[i].choice == Select(p, NoneKept(|p|));
    } else {
      var mask := GrowSelection(p, weights, i);
      assert all[i] == Grow(p, weights)[i];
    }
  }

  /** Where the enumeration lists the suppliers a mask keeps. */
  lemma {:induction false} RecordOfSelection<S>(p: seq<S>, weights: map<S, real>, mask: seq<bool>)
    returns (i: nat)
    requires Priced(p, weights) && |mask| == |p|
    ensures i < |Combinations(p, weights)| && Combinations(p, weights)[i].choice == Select(p, mask)
  {
    if |p| == 0 {
      i := 0;
    } else {
      var q, s := p[..|p| - 1], p[|p| - 1];
      var m, b := mask[..|q|], mask[|q|];
      assert q + [s] == p;
      assert m + [b] == mask;
      GrowDoubled(q, s, weights);
      var g, all := Grow(q, weights), Grow(p, weights);
      var j := RecordOfSelection(q, weights, m);
      SelectSnoc(q, s, m, b);
      if j < |g| {
        assert Combinations(q, weights)[j] == g[j];
        if b {
          i := |g| + j;
          assert all[i].choice == g[j].choice + [s];
        } else {
          i := j;
          assert all[i] == g[j];
        }
      } else {
        assert Select(q, m) == [];
        if b {
          i := 2 * |g|;
          assert all[i].choice == [] + [s];
        } else {
          i := |all|;
        }
      }
      assert Combinations(p, weights) == all + [Record([], 0.0)];
    }
  }

  /** Completeness: whatever subset a mask keeps is listed by some record. */
  lemma SelectionsAreRecords<S>(p: seq<S>, weights: map<S, real>, mask: seq<bool>)
    requires Priced(p, weights) && |mask| == |p|
    ensures exists i :: 0 <= i < |Combinations(p, weights)| && Combinations(p, weights)[i].choice == Select(p, mask)
  {
    var i := RecordOfSelection(p, weights, mask);
  }

  lemma AppendedDistinct<S>(a: seq<S>, b: seq<S>, s: S)
    requires a != b
    ensures a + [s] != b + [s]
  {
    assert (a + [s])[..|a|] == a && (b + [s])[..|b|] == b;
  }

  /** Two records of the enumeration over q + [s], at indices i < j, list different
      suppliers, given that those over q do, are non-empty and draw on q alone. */
  lemma DistinctStep<S>(g: seq<Record<S>>, all: seq<Record<S>>, q: seq<S>, s: S, ws: real,
                        i: nat, j: nat)
    requires Doubled(g, all, s, ws) && s !in q && i < j < |all|
    requires forall a :: 0 <= a < |g| ==> |g[a].choice| > 0
    requires forall a, x :: 0 <= a < |g| && x in g[a].choice ==> x in q
    requires forall a, b :: 0 <= a < b < |g| ==> g[a].choice != g[b].choice
    ensures all[i].choice != all[j].choice
  {
    if j < |g| {
      assert all[i] == g[i] && all[j] == g[j];
    } else if i < |g| {
      var c := all[j].choice;
      assert c[|c| - 1] == s by {
        if j < 2 * |g| {
          assert c == g[j - |g|].choice + [s];
        }
      }
      assert s !in g[i].choice;
    } else if j < 2 * |g| {
      AppendedDistinct(g[i - |g|].choice, g[j - |g|].choice, s);
    } else {
      assert |g[i - |g|].choice| > 0;
      assert |all[i].choice| >= 2;
    }
  }

  /** With no supplier listed twice, no two records built from p list the same
      suppliers. */
  lemma {:induction false} GrowDistinct<S>(p: seq<S>, weights: map<S, real>)
    requires Priced(p, weights) && Distinct(p)
    ensures forall i, j :: 0 <= i < j < |Grow(p, weights)| ==>
      Grow(p, weights)[i].choice != Grow(p, weights)[j].choice
  {
    if |p| > 0 {
      var q, s := p[..|p| - 1], p[|p| - 1];
      assert q + [s] == p;
      assert s !in q;
      GrowDoubled(q, s, weights);
      GrowDistinct(q, weights);
      GrowWellBuilt(q, weights);
      var g, all := Grow(q, weights), Grow(p, weights);
      assert forall a :: 0 <= a < |g| ==> |g[a].choice| > 0;
      assert forall a, x :: 0 <= a < |g| && x in g[a].choice ==> x in q;
      forall i, j | 0 <= i < j < |all| ensures all[i].choice != all[j].choice {
        DistinctStep(g, all, q, s, weights[s], i, j);
      }
    }
  }

  /** With no supplier listed twice, every subset appears exactly once. */
  lemma CombinationsDistinct<S>(p: seq<S>, weights: map<S, real>, i: nat, j: nat)
    requires Priced(p, weights) && Distinct(p)
    requires i < j < |Combinations(p, weights)|
    ensures Combinations(p, weights)[i].choice != Combinations(p, weights)[j].choice
  {
    GrowDistinct(p, weights);
    GrowWellBuilt(p, weights);
    var g := Grow(p, weights);
    if j == |g| {
      assert |g[i].choice| > 0;
    }
  }

  /** Every supplier of the choice has an entry in the incompatibility map. */
  predicate Listed<S(==)>(choices: seq<S>, incompatibilities: map<S, seq<S>>) {
    forall x :: x in choices ==> x in incompatibilities
  }

  /** No supplier of the choice lists any supplier of the choice, itself included,
      as incompatible. */
  predicate Compatible<S(==)>(choices: seq<S>, incompatibilities: map<S, seq<S>>)
    requires Listed(choices, incompatibilities)
  {
    forall i, j :: 0 <= i < |choices| && 0 <= j < |incompatibilities[choices[i]]| ==>
      incompatibilities[choices[i]][j] !in choices
  }

  /** The compatibility check: for each supplier of the choice, look up each of its
      incompatibles in the choice, stopping at the first one found. */
  method CheckCompatible<S(==)>(choices: seq<S>, incompatibilities: map<S, seq<S>>) returns (ok: bool)
    requires Listed(choices, incompatibilities)
    ensures ok <==> Compatible(choices, incompatibilities)
  {
    for i := 0 to |choices|
      invariant forall a, j :: 0 <= a < i && 0 <= j < |incompatibilities[choices[a]]| ==>
        incompatibilities[choices[a]][j] !in choices
    {
      var listed := incompatibilities[choices[i]];
      for j := 0 to |listed|
        invariant forall b :: 0 <= b < j ==> listed[b] !in choices
      {
        if listed[j] in choices {
          return false;
        }
      }
    }
    return true;
  }

  /** Compatibility only depends on which suppliers are chosen: dropping suppliers
      from a compatible choice, or reordering it, keeps it compatible. */
  lemma CompatibleSubChoice<S>(small: seq<S>, large: seq<S>, incompatibilities: map<S, seq<S>>)
    requires Listed(large, incompatibilities) && Compatible(large, incompatibilities)
    requires forall x :: x in small ==> x in large
    ensures Listed(small, incompatibilities) && Compatible(small, incompatibilities)
  {
    forall i, j | 0 <= i < |small| && 0 <= j < |incompatibilities[small[i]]|
      ensures incompatibilities[small[i]][j] !in small
    {
      assert small[i] in large;
      var a :| 0 <= a < |large| && large[a] == small[i];
      assert incompatibilities[large[a]][j] !in large;
    }
  }

  /** Every supplier of every record has an incompatibility list. */
  ghost predicate AllListed<S>(records: seq<Record<S>>, incompatibilities: map<S, seq<S>>) {
    forall i :: 0 <= i < |records| ==> Listed(records[i].choice, incompatibilities)
  }

  /** The record at index b is the first compatible one of the largest weight, and
      that weight is positive. */
  ghost predicate FirstBestPlan<S>(records: seq<Record<S>>, b: nat, incompatibilities: map<S, seq<S>>)
    requires AllListed(records, incompatibilities)
  {
    && b < |records|
    && Compatible(records[b].choice, incompatibilities)
    && records[b].weight > 0.0
    && (forall i :: 0 <= i < |records| && Compatible(records[i].choice, incompatibilities) ==>
          records[i].weight <= records[b].weight)
    && (forall i :: 0 <= i < b && Compatible(records[i].choice, incompatibilities) ==>
          records[i].weight < records[b].weight)
  }

  /** Every supplier has a weight and an incompatibility list. */
  predicate Described<S(==)>(suppliers: seq<S>, weights: map<S, real>, incompatibilities: map<S, seq<S>>) {
    Priced(suppliers, weights) && Listed(suppliers, incompatibilities)
  }

  /** Every record draws on the suppliers, lists only described ones and carries
      the weight of its choice. */
  ghost predicate Describes<S>(records: seq<Record<S>>, suppliers: seq<S>, weights: map<S, real>,
                               incompatibilities: map<S, seq<S>>) {
    forall i :: 0 <= i < |records| ==>
      && (forall x :: x in records[i].choice ==> x in suppliers)
      && Listed(records[i].choice, incompatibilities) && Priced(records[i].choice, weights)
      && records[i].weight == WeightOf(records[i].choice, weights)
  }

  /** State of the scan after the records before index i: best is the first
      compatible record of the largest positive weight among them, or empty when
      none of them has a positive weight. */
  ghost predicate Scanned<S>(records: seq<Record<S>>, incompatibilities: map<S, seq<S>>, i: nat,
                             best: seq<S>, maxWeight: real, bestIndex: nat)
    requires AllListed(records, incompatibilities)
  {
    && i <= |records|
    && 0.0 <= maxWeight
    && (maxWeight == 0.0 ==> best == [])
    && (maxWeight > 0.0 ==>
          && bestIndex < i && records[bestIndex].choice == best
          && records[bestIndex].weight == maxWeight
          && Compatible(best, incompatibilities)
          && (forall j :: 0 <= j < bestIndex && Compatible(records[j].choice, incompatibilities) ==>
                records[j].weight < maxWeight))
    && (forall j :: 0 <= j < i && Compatible(records[j].choice, incompatibilities) ==>
          records[j].weight <= maxWeight)
  }

  /** A record that is lighter than the best so far, or incompatible, changes nothing. */
  lemma ScanSkip<S>(records: seq<Record<S>>, incompatibilities: map<S, seq<S>>, i: nat,
                    best: seq<S>, maxWeight: real, bestIndex: nat)
    requires AllListed(records, incompatibilities) && i < |records|
    requires Scanned(records, incompatibilities, i, best, maxWeight, bestIndex)
    requires records[i].weight <= maxWeight || !Compatible(records[i].choice, incompatibilities)
    ensures Scanned(records, incompatibilities, i + 1, best, maxWeight, bestIndex)
  {
  }

  /** A compatible record heavier than the best so far becomes the best. */
  lemma ScanTake<S>(records: seq<Record<S>>, incompatibilities: map<S, seq<S>>, i: nat,
                    best: seq<S>, maxWeight: real, bestIndex: nat)
    requires AllListed(records, incompatibilities) && i < |records|
    requires Scanned(records, incompatibilities, i, best, maxWeight, bestIndex)
    requires records[i].weight > maxWeight && Compatible(records[i].choice, incompatibilities)
    ensures Scanned(records, incompatibilities, i + 1, records[i].choice, records[i].weight, i)
  {
  }

  /** Once every record is scanned, the kept choice is the plan the scan promises. */
  lemma ScanDone<S>(records: seq<Record<S>>, suppliers: seq<S>, weights: map<S, real>,
                    incompatibilities: map<S, seq<S>>, best: seq<S>, maxWeight: real, bestIndex: nat)
    requires Describes(records, suppliers, weights, incompatibilities)
    requires AllListed(records, incompatibilities)
    requires Scanned(records, incompatibilities, |records|, best, maxWeight, bestIndex)
    ensures forall x :: x in best ==> x in suppliers
    ensures Listed(best, incompatibilities) && Compatible(best, incompatibilities)
    ensures Priced(best, weights) && 0.0 <= WeightOf(best, weights)
    ensures forall i :: (0 <= i < |records| && Compatible(records[i].choice, incompatibilities)) ==>
      records[i].weight <= WeightOf(best, weights)
    ensures best == [] <==> (forall i :: (0 <= i < |records| &&
      Compatible(records[i].choice, incompatibilities)) ==> records[i].weight <= 0.0)
    ensures best != [] ==> (FirstBestPlan(records, bestIndex, incompatibilities) &&
      records[bestIndex].choice == best)
  {
    if maxWeight > 0.0 {
      assert FirstBestPlan(records, bestIndex, incompatibilities);
      assert best != [];
    } else {
      assert best == [];
      assert WeightOf(best, weights) == 0.0;
    }
  }

  /** Tries every record in enumeration order and keeps the choice of a record
      whose weight beats the best so far and which is compatible. */
  method OptimalPurchasePlan<S(==)>(suppliers: seq<S>, weights: map<S, real>,
                                    incompatibilities: map<S, seq<S>>)
    returns (best: seq<S>)
    requires Described(suppliers, weights, incompatibilities)
    ensures forall x :: x in best ==> x in suppliers
    ensures Listed(best, incompatibilities) && Compatible(best, incompatibilities)
    ensures Priced(best, weights) && 0.0 <= WeightOf(best, weights)
    ensures AllListed(Combinations(suppliers, weights), incompatibilities)
    ensures forall i :: (0 <= i < |Combinations(suppliers, weights)| &&
      Compatible(Combinations(suppliers, weights)[i].choice, incompatibilities)) ==>
        Combinations(suppliers, weights)[i].weight <= WeightOf(best, weights)
    ensures best == [] <==> (forall i :: (0 <= i < |Combinations(suppliers, weights)| &&
      Compatible(Combinations(suppliers, weights)[i].choice, incompatibilities)) ==>
        Combinations(suppliers, weights)[i].weight <= 0.0)
    ensures best != [] ==> exists b: nat ::
      (FirstBestPlan(Combinations(suppliers, weights), b, incompatibilities) &&
       Combinations(suppliers, weights)[b].choice == best)
  {
    var records := Combinations(suppliers, weights);
    forall i | 0 <= i < |records|
      ensures (forall x :: x in records[i].choice ==> x in suppliers)
      ensures Listed(records[i].choice, incompatibilities) && Priced(records[i].choice, weights)
      ensures records[i].weight == WeightOf(records[i].choice, weights)
    {
      CombinationsWeights(suppliers, weights, i);
    }
    assert Describes(records, suppliers, weights, incompatibilities);
    assert AllListed(records, incompatibilities);
    best := [];
    var maxWeight := 0.0;
    ghost var bestIndex: nat := 0;
    for i := 0 to |records|
      invariant Scanned(records, incompatibilities, i, best, maxWeight, bestIndex)
    {
      if records[i].weight > maxWeight {
        var ok := CheckCompatible(records[i].choice, incompatibilities);
        if ok {
          ScanTake(records, incompatibilities, i, best, maxWeight, bestIndex);
          best := records[i].choice;
          maxWeight := records[i].weight;
          bestIndex := i;
        } else {
          ScanSkip(records, incompatibilities, i, best, maxWeight, bestIndex);
        }
      } else {
        ScanSkip(records, incompatibilities, i, best, maxWeight, bestIndex);
      }
    }
    ScanDone(records, suppliers, weights, incompatibilities, best, maxWeight, bestIndex);
  }

  /** The records built from two suppliers, in order: the first alone, both, the
      second alone, none. */
  lemma TwoSupplierCombinations()
    ensures Combinations([1, 2], map[1 := 0.5, 2 := 0.25]) ==
      [Record([1], 0.5), Record([1, 2], 0.75), Record([2], 0.25), Record([], 0.0)]
  {
    var w := map[1 := 0.5, 2 := 0.25];
    assert [1, 2][..1] == [1];
    assert [1][..0] == [];
    assert Grow([1], w) == [Record([1], 0.5)];
    assert [1] + [2] == [1, 2];
    assert Extend([Record([1], 0.5)], 2, 0.25) == [Record([1, 2], 0.75)];
  }
}
