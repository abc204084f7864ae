/** Approximate motif search over a genome: the most frequent pattern of a given
    length, counting the windows of the genome within a given Hamming distance. */
module Motif {
  import opened Powers
  import opened Sequences

  datatype Option<T> = None | Some(value: T)

  /** The alphabet of DNA genomes. */
  const GenomicAlphabet: string := "ATCG"

  function Min(a: nat, b: nat): nat {
    if a <= b then a else b
  }

  /** Number of mismatching positions among the first n positions of a and b. */
  function MismatchesUpTo(a: string, b: string, n: nat): (m: nat)
    requires n <= |a| && n <= |b|
    ensures m <= n
  {
    if n == 0 then 0
    else MismatchesUpTo(a, b, n - 1) + (if a[n - 1] != b[n - 1] then 1 else 0)
  }

  /** Hamming distance over the positions the two strings share, as Python's zip
      pairs them: the longer string's tail is ignored. */
  function Mismatches(a: string, b: string): (m: nat)
    ensures m <= |a| && m <= |b|
  {
    MismatchesUpTo(a, b, Min(|a|, |b|))
  }

  /** The positions, among the first n, where a and b differ. */
  ghost function MismatchPositions(a: string, b: string, n: nat): set<nat>
    requires n <= |a| && n <= |b|
  {
    set i: nat | i < n && a[i] != b[i]
  }

  /** The running count is the number of differing positions. */
  lemma {:induction false} MismatchesCountPositions(a: string, b: string, n: nat)
    requires n <= |a| && n <= |b|
    ensures MismatchesUpTo(a, b, n) == |MismatchPositions(a, b, n)|
  {
    if n > 0 {
      MismatchesCountPositions(a, b, n - 1);
      var prev, cur := MismatchPositions(a, b, n - 1), MismatchPositions(a, b, n);
      assert forall i :: i in cur <==> i in prev || (i == n - 1 && a[i] != b[i]);
      if a[n - 1] != b[n - 1] {
        assert cur == prev + {n - 1};
      } else {
        assert cur == prev;
      }
    }
  }

  /** The distance is the number of shared positions holding different letters,
      and it is zero exactly when the shorter string is a prefix of the longer. */
  lemma MismatchesIsHamming(a: string, b: string)
    ensures Mismatches(a, b) == |MismatchPositions(a, b, Min(|a|, |b|))|
    ensures Mismatches(a, b) == 0 <==> forall i :: 0 <= i < Min(|a|, |b|) ==> a[i] == b[i]
  {
    var n := Min(|a|, |b|);
    MismatchesCountPositions(a, b, n);
    if Mismatches(a, b) == 0 {
      assert MismatchPositions(a, b, n) == {};
      forall i | 0 <= i < n
        ensures a[i] == b[i]
      {
        assert i !in MismatchPositions(a, b, n);
      }
    } else {
      var i :| i in MismatchPositions(a, b, n);
      assert a[i] != b[i];
    }
  }

  /** Counting over a longer prefix never finds fewer mismatches. */
  lemma {:induction false} MismatchesMonotone(a: string, b: string, i: nat, j: nat)
    requires i <= j <= |a| && j <= |b|
    ensures MismatchesUpTo(a, b, i) <= MismatchesUpTo(a, b, j)
    decreases j - i
  {
    if i < j {
      MismatchesMonotone(a, b, i, j - 1);
    }
  }

  /** The distance does not depend on which string comes first. */
  lemma {:induction false} MismatchesSymmetric(a: string, b: string, n: nat)
    requires n <= |a| && n <= |b|
    ensures MismatchesUpTo(a, b, n) == MismatchesUpTo(b, a, n)
  {
    if n > 0 {
      MismatchesSymmetric(a, b, n - 1);
    }
  }

  /** What the threshold test accepts: at most `allowed` mismatches, or none at all
      (a negative allowance still accepts two strings that agree). */
  predicate WithinDistance(a: string, b: string, allowed: int) {
    Mismatches(a, b) <= allowed || Mismatches(a, b) == 0
  }

  /** The Hamming threshold test, scanning the zipped pairs and stopping at the
      first mismatch that takes the distance past the allowance. */
  method CheckHammingDistance(s1: string, s2: string, allowed: int) returns (ok: bool)
    ensures ok <==> WithinDistance(s1, s2, allowed)
    ensures allowed >= 0 ==> (ok <==> Mismatches(s1, s2) <= allowed)
    ensures ok ==> forall e: int :: allowed <= e ==> WithinDistance(s1, s2, e)
  {
    var n := Min(|s1|, |s2|);
    var distance := 0;
    for i := 0 to n
      invariant distance == MismatchesUpTo(s1, s2, i)
      invariant distance <= allowed || distance == 0
    {
      if s1[i] != s2[i] {
        distance := distance + 1;
        if distance > allowed {
          MismatchesMonotone(s1, s2, i + 1, n);
          return false;
        }
      }
    }
    return true;
  }

  /** Every pattern of ps with c put in front, in the order of ps. */
  function PrefixEach(c: char, ps: seq<string>): (r: seq<string>)
    ensures |r| == |ps|
    ensures forall i :: 0 <= i < |ps| ==> r[i] == [c] + ps[i]
  {
    seq(|ps|, i requires 0 <= i < |ps| => [c] + ps[i])
  }

  /** For each letter of cs in turn, every pattern of ps with that letter in front. */
  function Expand(cs: string, ps: seq<string>): (r: seq<string>)
    ensures |r| == Mul(|cs|, |ps|)
  {
    if |cs| == 0 then [] else PrefixEach(cs[0], ps) + Expand(cs[1..], ps)
  }

  /** The patterns the generator yields, in yield order: the first letter runs over
      the alphabet in order and, for each, the rest runs over the patterns one
      letter shorter. */
  function Patterns(k: nat, alphabet: string): (r: seq<string>)
    ensures |r| == Pow(|alphabet|, k)
  {
    if k == 0 then [""] else Expand(alphabet, Patterns(k - 1, alphabet))
  }

  /** All letters of s are letters of the alphabet. */
  predicate OverAlphabet(s: string, alphabet: string) {
    forall i :: 0 <= i < |s| ==> s[i] in alphabet
  }

  /** The position of c in the alphabet: its first occurrence. */
  function Pos(c: char, alphabet: string): (p: nat)
    requires c in alphabet
    ensures p < |alphabet| && alphabet[p] == c
    ensures forall j :: 0 <= j < p ==> alphabet[j] != c
  {
    if alphabet[0] == c then 0 else 1 + Pos(c, alphabet[1..])
  }

  /** Where s sits among the patterns of its length: the letters' alphabet
      positions read as the digits of a base-|alphabet| numeral. */
  function Rank(s: string, alphabet: string): nat
    requires OverAlphabet(s, alphabet)
  {
    if |s| == 0 then 0
    else Mul(Pos(s[0], alphabet), Pow(|alphabet|, |s| - 1)) + Rank(s[1..], alphabet)
  }

  lemma {:induction false} ExpandAt(cs: string, ps: seq<string>, a: nat, r: nat)
    requires a < |cs| && r < |ps|
    ensures Mul(a, |ps|) + r < |Expand(cs, ps)|
    ensures Expand(cs, ps)[Mul(a, |ps|) + r] == [cs[a]] + ps[r]
  {
    var head, tail := PrefixEach(cs[0], ps), Expand(cs[1..], ps);
    assert Expand(cs, ps) == head + tail;
    if a == 0 {
      assert Mul(a, |ps|) == 0;
      assert (head + tail)[r] == head[r];
    } else {
      ExpandAt(cs[1..], ps, a - 1, r);
      assert cs[1..][a - 1] == cs[a];
      ConcatRight(head, tail, Mul(a - 1, |ps|) + r);
      assert Mul(a, |ps|) == |ps| + Mul(a - 1, |ps|);
    }
  }

  /** An index past the first part of a concatenation reads the second part. */
  lemma ConcatRight(head: seq<string>, tail: seq<string>, i: nat)
    requires i < |tail|
    ensures |head| + i < |head + tail| && (head + tail)[|head| + i] == tail[i]
  {
  }

  /** Any index into Expand splits into a letter and a shorter pattern. */
  lemma ExpandIndex(cs: string, ps: seq<string>, i: nat)
    requires i < |Expand(cs, ps)|
    ensures |ps| > 0 && Quot(i, |ps|) < |cs| && Rem(i, |ps|) < |ps|
    ensures i == Mul(Quot(i, |ps|), |ps|) + Rem(i, |ps|)
    ensures Expand(cs, ps)[i] == [cs[Quot(i, |ps|)]] + ps[Rem(i, |ps|)]
  {
    assert |ps| > 0;
    var a, r := Quot(i, |ps|), Rem(i, |ps|);
    QuotRem(i, |ps|);
    if a >= |cs| {
      MulMonotone(|cs|, a, |ps|);
      assert false;
    }
    ExpandAt(cs, ps, a, r);
  }

  /** Every generated pattern has length k and is written over the alphabet. */
  lemma {:induction false} PatternsShape(k: nat, alphabet: string)
    ensures forall i :: 0 <= i < |Patterns(k, alphabet)| ==>
      |Patterns(k, alphabet)[i]| == k && OverAlphabet(Patterns(k, alphabet)[i], alphabet)
  {
    if k > 0 {
      var ps := Patterns(k - 1, alphabet);
      PatternsShape(k - 1, alphabet);
      forall i | 0 <= i < |Patterns(k, alphabet)|
        ensures |Patterns(k, alphabet)[i]| == k && OverAlphabet(Patterns(k, alphabet)[i], alphabet)
      {
        ExpandIndex(alphabet, ps, i);
        var p := ps[Rem(i, |ps|)];
        assert Patterns(k, alphabet)[i] == [alphabet[Quot(i, |ps|)]] + p;
      }
    }
  }

  /** One letter more: if the rest of s sits at its rank among the shorter
      patterns ps, then s sits at its rank in the expansion of ps. */
  lemma RankStep(s: string, alphabet: string, ps: seq<string>, all: seq<string>)
    requires |s| > 0 && OverAlphabet(s, alphabet) && all == Expand(alphabet, ps)
    requires |ps| == Pow(|alphabet|, |s| - 1)
    requires Rank(s[1..], alphabet) < |ps| && ps[Rank(s[1..], alphabet)] == s[1..]
    ensures Rank(s, alphabet) < |all| && all[Rank(s, alphabet)] == s
  {
    var a := Pos(s[0], alphabet);
    ExpandAt(alphabet, ps, a, Rank(s[1..], alphabet));
    assert Rank(s, alphabet) == Mul(a, |ps|) + Rank(s[1..], alphabet);
    assert [s[0]] + s[1..] == s;
  }

  /** Completeness: every string of length k over the alphabet is generated, at
      the index its rank gives. */
  lemma {:induction false} PatternAtRank(s: string, alphabet: string)
    requires OverAlphabet(s, alphabet)
    ensures Rank(s, alphabet) < |Patterns(|s|, alphabet)|
    ensures Patterns(|s|, alphabet)[Rank(s, alphabet)] == s
  {
    if |s| == 0 {
      assert Patterns(0, alphabet) == [""];
    } else {
      var k := |s|;
      PatternAtRank(s[1..], alphabet);
      RankStep(s, alphabet, Patterns(k - 1, alphabet), Patterns(k, alphabet));
    }
  }

  /** Over an alphabet without repeated letters, the position of its a-th letter is a. */
  lemma PosOfLetter(alphabet: string, a: nat)
    requires Distinct(alphabet) && a < |alphabet|
    ensures Pos(alphabet[a], alphabet) == a
  {
    var p := Pos(alphabet[a], alphabet);
    assert alphabet[p] == alphabet[a];
  }

  /** Over an alphabet without repeated letters, the rank of the i-th pattern is i. */
  lemma {:induction false} RankOfPattern(k: nat, alphabet: string, i: nat)
    requires Distinct(alphabet) && i < |Patterns(k, alphabet)|
    ensures OverAlphabet(Patterns(k, alphabet)[i], alphabet)
    ensures Rank(Patterns(k, alphabet)[i], alphabet) == i
  {
    PatternsShape(k, alphabet);
    if k > 0 {
      var ps := Patterns(k - 1, alphabet);
      var s := Patterns(k, alphabet)[i];
      ExpandIndex(alphabet, ps, i);
      var a, r := Quot(i, |ps|), Rem(i, |ps|);
      assert s == [alphabet[a]] + ps[r];
      RankOfPattern(k - 1, alphabet, r);
      PosOfLetter(alphabet, a);
      assert s[1..] == ps[r];
      assert |s| - 1 == k - 1;
      assert Rank(s, alphabet) == Mul(a, |ps|) + Rank(ps[r], alphabet);
    }
  }

  /** s comes before t in dictionary order, letters ranked by their alphabet position. */
  predicate LexBefore(s: string, t: string, alphabet: string)
    requires OverAlphabet(s, alphabet) && OverAlphabet(t, alphabet) && |s| == |t|
  {
    && |s| > 0
    && (|| Pos(s[0], alphabet) < Pos(t[0], alphabet)
        || (s[0] == t[0] && LexBefore(s[1..], t[1..], alphabet)))
  }

  /** One letter more: if the shorter patterns ps come in dictionary order and
      share one length, so do the patterns of their expansion. */
  lemma OrderStep(alphabet: string, ps: seq<string>, all: seq<string>, i: nat, j: nat)
    requires Distinct(alphabet) && all == Expand(alphabet, ps) && i < j < |all|
    requires forall r :: 0 <= r < |ps| ==> OverAlphabet(ps[r], alphabet) && |ps[r]| == |ps[0]|
    requires forall r, r2 :: 0 <= r < r2 < |ps| ==> LexBefore(ps[r], ps[r2], alphabet)
    ensures OverAlphabet(all[i], alphabet) && OverAlphabet(all[j], alphabet)
    ensures |all[i]| == |all[j]|
    ensures LexBefore(all[i], all[j], alphabet)
  {
    ExpandIndex(alphabet, ps, i);
    ExpandIndex(alphabet, ps, j);
    var a, r := Quot(i, |ps|), Rem(i, |ps|);
    var b, r2 := Quot(j, |ps|), Rem(j, |ps|);
    var s, t := all[i], all[j];
    assert s == [alphabet[a]] + ps[r] && t == [alphabet[b]] + ps[r2];
    assert s[1..] == ps[r] && t[1..] == ps[r2];
    PosOfLetter(alphabet, a);
    PosOfLetter(alphabet, b);
    QuotOrder(i, j, |ps|);
  }

  /** Over an alphabet without repeated letters, the patterns come in dictionary order. */
  lemma {:induction false} PatternsOrdered(k: nat, alphabet: string, i: nat, j: nat)
    requires Distinct(alphabet) && i < j < |Patterns(k, alphabet)|
    ensures OverAlphabet(Patterns(k, alphabet)[i], alphabet) && OverAlphabet(Patterns(k, alphabet)[j], alphabet)
    ensures |Patterns(k, alphabet)[i]| == |Patterns(k, alphabet)[j]|
    ensures LexBefore(Patterns(k, alphabet)[i], Patterns(k, alphabet)[j], alphabet)
  {
    if k == 0 {
      assert false;
    } else {
      var ps := Patterns(k - 1, alphabet);
      PatternsShape(k - 1, alphabet);
      forall r, r2 | 0 <= r < r2 < |ps|
        ensures LexBefore(ps[r], ps[r2], alphabet)
      {
        PatternsOrdered(k - 1, alphabet, r, r2);
      }
      OrderStep(alphabet, ps, Patterns(k, alphabet), i, j);
    }
  }

  /** Over an alphabet without repeated letters, no pattern is generated twice. */
  lemma PatternsDistinct(k: nat, alphabet: string, i: nat, j: nat)
    requires Distinct(alphabet)
    requires i < j < |Patterns(k, alphabet)|
    ensures Patterns(k, alphabet)[i] != Patterns(k, alphabet)[j]
  {
    RankOfPattern(k, alphabet, i);
    RankOfPattern(k, alphabet, j);
  }

  /** Length zero gives the empty pattern alone; length two over "AT" gives the four
      patterns in dictionary order. */
  lemma SmallPatterns()
    ensures Patterns(0, GenomicAlphabet) == [""]
    ensures Patterns(2, "AT") == ["AA", "AT", "TA", "TT"]
  {
    PatternsOfOneLetter();
    var two := ["A", "T"];
    assert "AT"[1..] == "T" && "T"[1..] == "";
    assert ['A'] + "A" == "AA" && ['A'] + "T" == "AT" && ['T'] + "A" == "TA" && ['T'] + "T" == "TT";
    assert PrefixEach('A', two) == ["AA", "AT"] && PrefixEach('T', two) == ["TA", "TT"];
    assert Expand("T", two) == ["TA", "TT"] + Expand("", two);
  }

  /** The patterns of length one over "AT", in alphabet order. */
  lemma PatternsOfOneLetter()
    ensures Patterns(1, "AT") == ["A", "T"]
  {
    var one := [""];
    assert ['A'] + "" == "A" && ['T'] + "" == "T";
    assert PrefixEach('A', one) == ["A"] && PrefixEach('T', one) == ["T"];
    assert "AT"[1..] == "T" && "T"[1..] == "";
    assert Expand("T", one) == ["T"] + Expand("", one);
    assert Expand("AT", one) == ["A", "T"];
  }

  /** A string agrees with itself everywhere. */
  lemma {:induction false} MismatchesSelf(a: string, n: nat)
    requires n <= |a|
    ensures MismatchesUpTo(a, a, n) == 0
  {
    if n > 0 {
      MismatchesSelf(a, n - 1);
    }
  }

  /** How many length-k windows the genome has; none when it is shorter than k. */
  function WindowCount(k: nat, genome: string): nat {
    if k <= |genome| then |genome| - k + 1 else 0
  }

  /** The length-k window of the genome starting at i. */
  function Window(genome: string, i: nat, k: nat): (w: string)
    requires i + k <= |genome|
    ensures |w| == k && forall j :: 0 <= j < k ==> w[j] == genome[i + j]
  {
    genome[i..i + k]
  }

  /** Starts, below n, of the genome windows that lie within the allowed distance
      of the pattern. */
  ghost function HitsBelow(pattern: string, genome: string, allowed: int, n: nat): set<nat>
    requires n <= WindowCount(|pattern|, genome)
  {
    set i: nat | i < n && WithinDistance(pattern, Window(genome, i, |pattern|), allowed)
  }

  /** Starts of all the approximate occurrences of the pattern in the genome. */
  ghost function Hits(pattern: string, genome: string, allowed: int): set<nat> {
    HitsBelow(pattern, genome, allowed, WindowCount(|pattern|, genome))
  }

  /** One window more adds its start to the hits exactly when it passes the test. */
  lemma HitsBelowStep(pattern: string, genome: string, allowed: int, n: nat)
    requires n < WindowCount(|pattern|, genome)
    ensures n !in HitsBelow(pattern, genome, allowed, n)
    ensures WithinDistance(pattern, Window(genome, n, |pattern|), allowed) ==>
      HitsBelow(pattern, genome, allowed, n + 1) == HitsBelow(pattern, genome, allowed, n) + {n}
    ensures !WithinDistance(pattern, Window(genome, n, |pattern|), allowed) ==>
      HitsBelow(pattern, genome, allowed, n + 1) == HitsBelow(pattern, genome, allowed, n)
  {
  }

  /** Slides a pattern-sized window along the genome and counts the windows that
      pass the Hamming threshold test. */
  method CountApproximateOccurrences(pattern: string, genome: string, allowed: int)
    returns (count: nat)
    ensures count == |Hits(pattern, genome, allowed)|
    ensures count <= WindowCount(|pattern|, genome)
    ensures |genome| < |pattern| ==> count == 0
  {
    var k := |pattern|;
    var n := WindowCount(k, genome);
    count := 0;
    for index := 0 to n
      invariant count == |HitsBelow(pattern, genome, allowed, index)|
      invariant count <= index
    {
      var window := Window(genome, index, k);
      HitsBelowStep(pattern, genome, allowed, index);
      var ok := CheckHammingDistance(pattern, window, allowed);
      if ok {
        count := count + 1;
      }
    }
  }

  /** Every window of the genome is an exact occurrence of itself, whatever the
      allowance. */
  lemma WindowHitsItself(genome: string, i: nat, k: nat, allowed: int)
    requires i + k <= |genome|
    ensures i in Hits(Window(genome, i, k), genome, allowed)
  {
    var w := Window(genome, i, k);
    MismatchesSelf(w, k);
  }

  /** A genome written over the alphabet and at least k long has a window that is
      one of the generated patterns, so some generated pattern occurs in it. */
  lemma {:induction false} SomePatternOccurs(k: nat, genome: string, allowed: int, alphabet: string)
    requires OverAlphabet(genome, alphabet) && k <= |genome|
    ensures exists j :: 0 <= j < |Patterns(k, alphabet)| && Score(Patterns(k, alphabet)[j], genome, allowed) > 0
  {
    var w := Window(genome, 0, k);
    assert OverAlphabet(w, alphabet) by {
      forall i | 0 <= i < |w| ensures w[i] in alphabet {
        assert w[i] == genome[i];
      }
    }
    PatternAtRank(w, alphabet);
    WindowHitsItself(genome, 0, k, allowed);
    var j := Rank(w, alphabet);
    assert Patterns(k, alphabet)[j] == w;
  }

  /** One key of a dictionary together with its value. */
  datatype Entry = Entry(key: string, value: nat)

  /** A dictionary as its entries in insertion order, each key at most once. */
  type Dictionary = seq<Entry>

  /** Dictionary assignment d[key] := value: an existing key keeps its place and
      takes the new value, a new key goes at the end. */
  function Assign(d: Dictionary, key: string, value: nat): (r: Dictionary)
    ensures |r| == |d| || |r| == |d| + 1
    ensures Entry(key, value) in r
    ensures forall e :: e in d && e.key != key ==> e in r
    ensures forall e :: e in r ==> e == Entry(key, value) || e in d
  {
    if |d| == 0 then [Entry(key, value)]
    else if d[0].key == key then [Entry(key, value)] + d[1..]
    else [d[0]] + Assign(d[1..], key, value)
  }

  /** Assigning a key the dictionary lacks appends it. */
  lemma {:induction false} AssignAppends(d: Dictionary, key: string, value: nat)
    requires forall j :: 0 <= j < |d| ==> d[j].key != key
    ensures Assign(d, key, value) == d + [Entry(key, value)]
  {
    if |d| > 0 {
      AssignAppends(d[1..], key, value);
      assert [d[0]] + (d[1..] + [Entry(key, value)]) == d + [Entry(key, value)];
    }
  }

  /** Assigning a key the dictionary holds replaces its value in place. */
  lemma {:induction false} AssignOverwrites(d: Dictionary, key: string, value: nat, j: nat)
    requires j < |d| && d[j].key == key
    requires forall m :: 0 <= m < j ==> d[m].key != key
    ensures Assign(d, key, value) == d[j := Entry(key, value)]
  {
    if j == 0 {
      assert [Entry(key, value)] + d[1..] == d[0 := Entry(key, value)];
    } else {
      assert d[0].key != key;
      AssignOverwrites(d[1..], key, value, j - 1);
      assert [d[0]] + d[1..][j - 1 := Entry(key, value)] == d[j := Entry(key, value)];
    }
  }

  /** Index of the first entry holding the largest value: the key a maximum over
      the dictionary's keys by their values returns, since it keeps the earliest of
      equal candidates. */
  function ArgMax(d: Dictionary): (r: nat)
    requires |d| > 0
    ensures r < |d|
    ensures forall j :: 0 <= j < |d| ==> d[j].value <= d[r].value
    ensures forall j :: 0 <= j < r ==> d[j].value < d[r].value
  {
    if |d| == 1 then 0
    else
      var j := 1 + ArgMax(d[1..]);
      if d[j].value > d[0].value then j else 0
  }

  /** The key with the largest value, or None where Python's max raises on an empty
      dictionary. */
  function MaxKey(d: Dictionary): (r: Option<string>)
    ensures r.None? <==> |d| == 0
  {
    if |d| == 0 then None else Some(d[ArgMax(d)].key)
  }

  /** Values that strictly increase in insertion order. */
  predicate StrictlyIncreasing(d: Dictionary) {
    forall i, j :: 0 <= i < j < |d| ==> d[i].value < d[j].value
  }

  /** In a dictionary whose values strictly increase, the maximum is the last key. */
  lemma MaxKeyOfIncreasing(d: Dictionary)
    requires |d| > 0 && StrictlyIncreasing(d)
    ensures MaxKey(d) == Some(d[|d| - 1].key)
  {
    var r := ArgMax(d);
    assert d[|d| - 1].value <= d[r].value;
  }

  /** How many approximate occurrences of the pattern the genome holds. */
  ghost function Score(pattern: string, genome: string, allowed: int): nat {
    |Hits(pattern, genome, allowed)|
  }

  /** The pattern at index i of ps is the first of ps with the most approximate
      occurrences. */
  ghost predicate FirstMostFrequent(ps: seq<string>, i: nat, genome: string, allowed: int) {
    && i < |ps|
    && (forall j :: 0 <= j < |ps| ==> Score(ps[j], genome, allowed) <= Score(ps[i], genome, allowed))
    && (forall j :: 0 <= j < i ==> Score(ps[j], genome, allowed) < Score(ps[i], genome, allowed))
  }

  /** What the search knows after looking at the first n patterns of ps: every
      entry holds its key's score, the values climb, the last entry is the best
      score so far, held by the first pattern reaching it. */
  ghost predicate Tracked(d: Dictionary, best: nat, bestIndex: nat, ps: seq<string>, n: nat,
                          genome: string, allowed: int)
  {
    && n <= |ps|
    && (forall j :: 0 <= j < |d| ==> d[j].value == Score(d[j].key, genome, allowed))
    && StrictlyIncreasing(d)
    && (|d| == 0 ==> best == 0)
    && (|d| > 0 ==> best == d[|d| - 1].value && best > 0)
    && (forall j :: 0 <= j < n ==> Score(ps[j], genome, allowed) <= best)
    && (|d| > 0 ==> bestIndex < n && ps[bestIndex] == d[|d| - 1].key)
    && (|d| > 0 ==> forall j :: 0 <= j < bestIndex ==> Score(ps[j], genome, allowed) < best)
  }

  /** A pattern that does not beat the best leaves the dictionary alone. */
  lemma TrackedSkip(d: Dictionary, best: nat, bestIndex: nat, ps: seq<string>, n: nat,
                    genome: string, allowed: int)
    requires Tracked(d, best, bestIndex, ps, n, genome, allowed) && n < |ps|
    requires Score(ps[n], genome, allowed) <= best
    ensures Tracked(d, best, bestIndex, ps, n + 1, genome, allowed)
  {
  }

  /** A pattern that beats the best is not yet a key, since every key scores at
      most the best. */
  lemma EnterIsNew(d: Dictionary, best: nat, bestIndex: nat, ps: seq<string>, n: nat,
                   genome: string, allowed: int)
    requires Tracked(d, best, bestIndex, ps, n, genome, allowed) && n < |ps|
    requires Score(ps[n], genome, allowed) > best
    ensures forall j :: 0 <= j < |d| ==> d[j].key != ps[n]
  {
    forall j | 0 <= j < |d| ensures d[j].key != ps[n] {
      assert j < |d| - 1 ==> d[j].value < d[|d| - 1].value;
    }
  }

  /** A pattern that beats the best, put at the end, keeps the search's knowledge. */
  lemma TrackedEnter(d: Dictionary, best: nat, bestIndex: nat, ps: seq<string>, n: nat,
                     genome: string, allowed: int)
    requires Tracked(d, best, bestIndex, ps, n, genome, allowed) && n < |ps|
    requires Score(ps[n], genome, allowed) > best
    ensures Tracked(d + [Entry(ps[n], Score(ps[n], genome, allowed))], Score(ps[n], genome, allowed), n,
                    ps, n + 1, genome, allowed)
  {
    var sc := Score(ps[n], genome, allowed);
    var e := Entry(ps[n], sc);
    var d2 := d + [e];
    assert forall j :: 0 <= j < |d| ==> d2[j] == d[j];
    assert d2[|d|] == e;
    forall i, j | 0 <= i < j < |d2| ensures d2[i].value < d2[j].value {
      if j == |d| {
        assert d2[i].value <= best;
      }
    }
    assert forall j :: 0 <= j < |d2| ==> d2[j].value == Score(d2[j].key, genome, allowed);
    assert forall j :: 0 <= j < n + 1 ==> Score(ps[j], genome, allowed) <= sc;
    assert forall j :: 0 <= j < n ==> Score(ps[j], genome, allowed) < sc;
  }

  /** Once every pattern is looked at, the dictionary's largest key is the first
      most frequent pattern, and the dictionary is empty exactly when no pattern
      occurs at all. */
  lemma TrackedDone(d: Dictionary, best: nat, bestIndex: nat, ps: seq<string>,
                    genome: string, allowed: int)
    requires Tracked(d, best, bestIndex, ps, |ps|, genome, allowed)
    ensures MaxKey(d).None? <==> forall j :: 0 <= j < |ps| ==> Score(ps[j], genome, allowed) == 0
    ensures MaxKey(d).Some? ==>
      FirstMostFrequent(ps, bestIndex, genome, allowed) && ps[bestIndex] == MaxKey(d).value
  {
    if |d| > 0 {
      MaxKeyOfIncreasing(d);
      assert Score(ps[bestIndex], genome, allowed) == best;
    }
  }

  /** The most frequent approximate pattern of length k. Each generated pattern is
      counted; a pattern is entered in the dictionary only when its count beats the
      best so far; the answer is the dictionary's key of largest value. None stands
      for the error raised when no pattern occurs at all. */
  method FindRecurrentPattern(k: nat, genome: string, allowed: int, alphabet: string)
    returns (r: Option<string>)
    ensures r.None? <==> forall j :: 0 <= j < |Patterns(k, alphabet)| ==>
      Score(Patterns(k, alphabet)[j], genome, allowed) == 0
    ensures r.Some? ==> exists i: nat ::
      (FirstMostFrequent(Patterns(k, alphabet), i, genome, allowed) && Patterns(k, alphabet)[i] == r.value)
  {
    var ps := Patterns(k, alphabet);
    var dictionary: Dictionary := [];
    var best := 0;
    ghost var bestIndex: nat := 0;
    for i := 0 to |ps|
      invariant Tracked(dictionary, best, bestIndex, ps, i, genome, allowed)
    {
      var count := CountApproximateOccurrences(ps[i], genome, allowed);
      if count > best {
        EnterIsNew(dictionary, best, bestIndex, ps, i, genome, allowed);
        AssignAppends(dictionary, ps[i], count);
        TrackedEnter(dictionary, best, bestIndex, ps, i, genome, allowed);
        dictionary := Assign(dictionary, ps[i], count);
        best := count;
        bestIndex := i;
      } else {
        TrackedSkip(dictionary, best, bestIndex, ps, i, genome, allowed);
      }
    }
    r := MaxKey(dictionary);
    TrackedDone(dictionary, best, bestIndex, ps, genome, allowed);
    if r.Some? {
      assert FirstMostFrequent(ps, bestIndex, genome, allowed) && ps[bestIndex] == r.value;
    }
    assert ps == Patterns(k, alphabet);
  }

  /** A validated instance: pattern length, maximum distance and genome. */
  datatype Instance = Instance(patternLength: nat, maxDistance: nat, genome: string)

  /** The checks made on a freshly read instance: both numbers positive and every
      character of the genome in the alphabet; None stands for the raised error. */
  method ValidateInstance(patternLength: int, maxDistance: int, genome: string, alphabet: string)
    returns (r: Option<Instance>)
    ensures r.Some? <==> patternLength > 0 && maxDistance > 0 && OverAlphabet(genome, alphabet)
    ensures r.Some? ==> r.value == Instance(patternLength, maxDistance, genome)
  {
    if patternLength <= 0 || maxDistance <= 0 {
      return None;
    }
    for i := 0 to |genome|
      invariant forall j :: 0 <= j < i ==> genome[j] in alphabet
    {
      if genome[i] !in alphabet {
        return None;
      }
    }
    return Some(Instance(patternLength, maxDistance, genome));
  }

  /** On a validated instance whose genome is at least as long as the pattern, the
      search always finds a pattern. */
  lemma ValidInstanceFindsPattern(inst: Instance, alphabet: string)
    requires OverAlphabet(inst.genome, alphabet) && inst.patternLength <= |inst.genome|
    ensures !(forall j :: 0 <= j < |Patterns(inst.patternLength, alphabet)| ==>
      Score(Patterns(inst.patternLength, alphabet)[j], inst.genome, inst.maxDistance) == 0)
  {
    SomePatternOccurs(inst.patternLength, inst.genome, inst.maxDistance, alphabet);
  }
}
