/**
 * The statistics pass over the vocabulary: every unordered pair of distinct words is
 * visited once, in insertion order, and the bounded edit distance engine is run on their
 * keys, the earlier-inserted key first, with the bound 10; both words record the result
 * unless the engine gives up.
 *
 * The loops are proved against values: `Holds` ties the words' distance bookkeeping to a
 * sequence of records, one visited pair changes that sequence as `AfterPair` says, and the
 * loops compute the folds `RowFrom` and `RowsFrom` of `AfterPair`.
 */
module Stats {
  import opened Wrappers
  import opened Collections
  import opened Levenshtein
  import opened Vocabulary
  import ED = EditDistance

  /** The bound the statistics pass gives every edit distance. */
  const StatsMaxDist: int := 10

  /**
   * What the engine returns for two keys under the bound of the statistics pass: the
   * distance, or `DistanceBeyond` when it gives up. The engine's answer depends on which
   * key comes first (see `EditDistance.ArgumentOrderMatters`).
   */
  ghost function StatsDistance(a: string, b: string): int {
    ED.BoundedDistance(a, b, StatsMaxDist)
  }

  /** The engine's answer for `a` and `b`, given first when `aFirst` and second otherwise. */
  ghost function OrderedDistance(a: string, b: string, aFirst: bool): int {
    if aFirst then StatsDistance(a, b) else StatsDistance(b, a)
  }

  /** The answer for the words at positions `i` and `j`: the loops give the earlier one first. */
  ghost function PairDistance(keys: seq<string>, i: nat, j: nat): int
    requires i < |keys| && j < |keys|
  {
    OrderedDistance(keys[i], keys[j], i < j)
  }

  /**
   * A recorded distance is exact and within the bound, and words farther apart than the
   * bound are never recorded; the engine may also give up on words within the bound.
   */
  lemma StatsDistanceExact(a: string, b: string)
    requires |a| > 0 && |b| > 0
    ensures StatsDistance(a, b) == ED.DistanceBeyond || (StatsDistance(a, b) == Lev(a, b) && Lev(a, b) <= StatsMaxDist)
    ensures Lev(a, b) > StatsMaxDist ==> StatsDistance(a, b) == ED.DistanceBeyond
  {
    ED.ExactOrBeyond(a, b, StatsMaxDist);
    if Lev(a, b) > StatsMaxDist {
      ED.BeyondWhenFar(a, b, StatsMaxDist);
    }
  }

  /**
   * The pair of positions `i` and `j` has been visited before the cursor `(a, b)` of the
   * nested loops `for a { for b > a }`.
   */
  predicate Visited(i: nat, j: nat, a: nat, b: nat) {
    var lo := if i < j then i else j;
    var hi := if i < j then j else i;
    lo < a || (lo == a && hi < b)
  }

  /** What a word's per-word map holds about `other`: the engine's answer `d` once the pair is done and the engine did not give up, nothing otherwise. */
  ghost predicate PairHolds(d: int, other: string, byWord: map<string, int>, done: bool) {
    if done && d != ED.DistanceBeyond
    then other in byWord && byWord[other] == d
    else other !in byWord
  }

  /** A word's records agree with each other and name only keys of the vocabulary. */
  ghost predicate RowOk(keys: seq<string>, key: string, r: DistanceRecords) {
    DistancesAgree(key, r.buckets, r.byWord, r.lo, r.hi)
    && forall k :: k in r.byWord ==> IndexOf(keys, k) >= 0
  }

  /** Every word's records are consistent. */
  ghost predicate RowsOk(keys: seq<string>, s: seq<DistanceRecords>) {
    |s| == |keys| && forall i :: 0 <= i < |s| ==> RowOk(keys, keys[i], s[i])
  }

  /**
   * The per-word maps when the nested loops stand at `(a, b)`: exactly the visited pairs
   * the engine did not give up on are recorded, with its answer.
   */
  ghost predicate PairsUpTo(keys: seq<string>, s: seq<DistanceRecords>, a: nat, b: nat) {
    |s| == |keys|
    && forall i, j :: 0 <= i < |s| && 0 <= j < |s| && i != j ==> PairHolds(PairDistance(keys, i, j), keys[j], s[i].byWord, Visited(i, j, a, b))
  }

  /** After the pair loops: every pair of distinct words holds the engine's answer unless it gave up, and nothing else is recorded. */
  ghost predicate AllRecorded(keys: seq<string>, s: seq<DistanceRecords>) {
    RowsOk(keys, s)
    && forall i, j :: 0 <= i < |s| && 0 <= j < |s| && i != j ==> PairHolds(PairDistance(keys, i, j), keys[j], s[i].byWord, true)
  }

  /** The bookkeeping after visiting the pair `(a, b)`: both words record the engine's answer for the earlier key first, unless it gave up. */
  ghost function AfterPair(keys: seq<string>, s: seq<DistanceRecords>, a: nat, b: nat): (s': seq<DistanceRecords>)
    requires a < b < |keys| == |s|
    ensures |s'| == |s|
  {
    var d := StatsDistance(keys[a], keys[b]);
    if d == ED.DistanceBeyond then s
    else s[a := AddRecord(s[a], d, keys[b])][b := AddRecord(s[b], d, keys[a])]
  }

  /** The words' distance bookkeeping, in list order. */
  ghost function Snapshot(list: seq<Word>): (s: seq<DistanceRecords>)
    reads Elements(list)
    ensures |s| == |list| && forall i :: 0 <= i < |list| ==> s[i] == list[i].Records()
  {
    seq(|list|, i requires 0 <= i < |list| reads Elements(list) => list[i].Records())
  }

  /** Before the loops nothing is recorded. */
  lemma NothingRecorded(keys: seq<string>, s: seq<DistanceRecords>)
    requires |s| == |keys|
    requires forall i :: 0 <= i < |s| ==> s[i] == DistanceRecords(map[], map[], MaxValue, 0)
    ensures RowsOk(keys, s) && PairsUpTo(keys, s, 0, 1)
  {
  }

  /** Recording a new key at a distance keeps a word's records consistent. */
  lemma RecordOk(keys: seq<string>, key: string, r: DistanceRecords, d: int, k: string)
    requires RowOk(keys, key, r) && 0 <= d && k != key && k !in r.byWord && IndexOf(keys, k) >= 0
    ensures RowOk(keys, key, AddRecord(r, d, k))
  {
    RecordKeepsAgreement(key, r.buckets, r.byWord, r.lo, r.hi, d, k);
  }

  /** Visiting the pair `(a, b)` keeps every word's records consistent. */
  lemma RowsStep(keys: seq<string>, s: seq<DistanceRecords>, a: nat, b: nat)
    requires a < b < |keys| && UniqueAt(keys, a) && UniqueAt(keys, b) && RowsOk(keys, s)
    requires keys[b] !in s[a].byWord && keys[a] !in s[b].byWord
    ensures RowsOk(keys, AfterPair(keys, s, a, b))
  {
    var d := StatsDistance(keys[a], keys[b]);
    if d != ED.DistanceBeyond {
      IndexOfFinds(keys, keys[a]);
      IndexOfFinds(keys, keys[b]);
      assert RowOk(keys, keys[a], s[a]) && RowOk(keys, keys[b], s[b]);
      RecordOk(keys, keys[a], s[a], d, keys[b]);
      RecordOk(keys, keys[b], s[b], d, keys[a]);
      var s' := AfterPair(keys, s, a, b);
      forall i | 0 <= i < |s'| ensures RowOk(keys, keys[i], s'[i]) {
        if i != a && i != b {
          assert RowOk(keys, keys[i], s[i]);
        }
      }
    }
  }

  /** Visiting the pair `(a, b)` records exactly that pair and moves the cursor on by one. */
  lemma PairsStep(keys: seq<string>, s: seq<DistanceRecords>, a: nat, b: nat)
    requires a < b < |keys| && UniqueAt(keys, a) && UniqueAt(keys, b) && PairsUpTo(keys, s, a, b)
    ensures PairsUpTo(keys, AfterPair(keys, s, a, b), a, b + 1)
  {
    var s' := AfterPair(keys, s, a, b);
    forall i, j | 0 <= i < |s'| && 0 <= j < |s'| && i != j
      ensures PairHolds(PairDistance(keys, i, j), keys[j], s'[i].byWord, Visited(i, j, a, b + 1))
    {
      if (i == a && j == b) || (i == b && j == a) {
        assert PairHolds(PairDistance(keys, i, j), keys[j], s[i].byWord, false);
      } else {
        assert Visited(i, j, a, b + 1) == Visited(i, j, a, b);
        assert PairHolds(PairDistance(keys, i, j), keys[j], s[i].byWord, Visited(i, j, a, b));
        assert i == a || i == b ==> keys[j] != keys[a] && keys[j] != keys[b];
      }
    }
  }

  /** Visiting the pair `(a, b)` keeps the bookkeeping exact. */
  lemma PairStep(keys: seq<string>, s: seq<DistanceRecords>, a: nat, b: nat)
    requires a < b < |keys| && UniqueAt(keys, a) && UniqueAt(keys, b)
    requires RowsOk(keys, s) && PairsUpTo(keys, s, a, b)
    ensures RowsOk(keys, AfterPair(keys, s, a, b)) && PairsUpTo(keys, AfterPair(keys, s, a, b), a, b + 1)
  {
    assert PairHolds(PairDistance(keys, a, b), keys[b], s[a].byWord, false) && PairHolds(PairDistance(keys, b, a), keys[a], s[b].byWord, false);
    RowsStep(keys, s, a, b);
    PairsStep(keys, s, a, b);
  }

  /** The pairs `(a, b)`, `(a, b + 1)`, ... of row `a`, visited in order from `s`. */
  ghost function RowFrom(keys: seq<string>, s: seq<DistanceRecords>, a: nat, b: nat): (s': seq<DistanceRecords>)
    requires a < b <= |keys| == |s|
    ensures |s'| == |s|
    decreases |keys| - b
  {
    if b == |keys| then s else RowFrom(keys, AfterPair(keys, s, a, b), a, b + 1)
  }

  /** The rows `a`, `a + 1`, ... of the pair loops, visited in order from `s`. */
  ghost function RowsFrom(keys: seq<string>, s: seq<DistanceRecords>, a: nat): (s': seq<DistanceRecords>)
    requires a <= |keys| == |s|
    ensures |s'| == |s|
    decreases |keys| - a
  {
    if a == |keys| then s else RowsFrom(keys, RowFrom(keys, s, a, a + 1), a + 1)
  }

  /** The end of row `a` is the start of row `a + 1`. */
  lemma RowDone(keys: seq<string>, s: seq<DistanceRecords>, a: nat)
    requires PairsUpTo(keys, s, a, |keys|)
    ensures PairsUpTo(keys, s, a + 1, a + 2)
  {
    forall i, j | 0 <= i < |s| && 0 <= j < |s| && i != j
      ensures PairHolds(PairDistance(keys, i, j), keys[j], s[i].byWord, Visited(i, j, a + 1, a + 2))
    {
      assert Visited(i, j, a, |keys|) == Visited(i, j, a + 1, a + 2);
    }
  }

  /** After the last row every pair is visited. */
  lemma RowsDone(keys: seq<string>, s: seq<DistanceRecords>)
    requires RowsOk(keys, s) && PairsUpTo(keys, s, |keys|, |keys| + 1)
    ensures AllRecorded(keys, s)
  {
    forall i, j | 0 <= i < |s| && 0 <= j < |s| && i != j
      ensures PairHolds(PairDistance(keys, i, j), keys[j], s[i].byWord, true)
    {
      assert Visited(i, j, |keys|, |keys| + 1);
    }
  }

  /** The rest of row `a` keeps the bookkeeping exact. */
  lemma {:induction false} RowKeeps(keys: seq<string>, s: seq<DistanceRecords>, a: nat, b: nat)
    requires a < b <= |keys| && Unique(keys) && RowsOk(keys, s) && PairsUpTo(keys, s, a, b)
    ensures RowsOk(keys, RowFrom(keys, s, a, b)) && PairsUpTo(keys, RowFrom(keys, s, a, b), a, |keys|)
    decreases |keys| - b
  {
    if b < |keys| {
      assert UniqueAt(keys, a) && UniqueAt(keys, b);
      PairStep(keys, s, a, b);
      RowKeeps(keys, AfterPair(keys, s, a, b), a, b + 1);
    }
  }

  /** The remaining rows from `a` on record exactly the pairs the engine did not give up on. */
  lemma {:induction false} RowsKeep(keys: seq<string>, s: seq<DistanceRecords>, a: nat)
    requires a <= |keys| && Unique(keys) && RowsOk(keys, s) && PairsUpTo(keys, s, a, a + 1)
    ensures AllRecorded(keys, RowsFrom(keys, s, a))
    decreases |keys| - a
  {
    if a == |keys| {
      RowsDone(keys, s);
    } else {
      var s' := RowFrom(keys, s, a, a + 1);
      assert RowsFrom(keys, s, a) == RowsFrom(keys, s', a + 1);
      RowKeeps(keys, s, a, a + 1);
      RowDone(keys, s', a);
      RowsKeep(keys, s', a + 1);
    }
  }

  /** The words hold the bookkeeping `s`, in list order. */
  ghost predicate Holds(list: seq<Word>, s: seq<DistanceRecords>)
    reads Elements(list)
  {
    |s| == |list| && forall i :: 0 <= i < |list| ==> list[i].Records() == s[i]
  }

  /** The pair `(a, b)`: the engine's answer for the two words, recorded in both unless it gave up. */
  method VisitPair(list: seq<Word>, a: nat, b: nat, ghost keys: seq<string>, ghost cur: seq<DistanceRecords>)
    requires keys == KeysOf(list) && a < b < |list| && Unique(keys)
    requires Holds(list, cur)
    modifies Elements(list)`distances, Elements(list)`distanceByWord, Elements(list)`rangeMin, Elements(list)`rangeMax
    ensures Holds(list, AfterPair(keys, cur, a, b))
  {
    assert UniqueAt(keys, a) && UniqueAt(keys, b);
    var wa, wb := list[a], list[b];
    var d := Vocabulary.Word.EditDistance(wa, wb, Some(StatsMaxDist));
    forall i | 0 <= i < |list| && i != a && i != b ensures list[i].Records() == cur[i] {
      assert list[i].key != wa.key && list[i].key != wb.key;
    }
  }

  /** Row `a` of the pair loops: the pairs `(a, b)` for every `b > a`, in order. */
  method VisitRow(list: seq<Word>, a: nat, ghost keys: seq<string>, ghost start: seq<DistanceRecords>)
    requires keys == KeysOf(list) && a < |list| && Unique(keys) && Holds(list, start)
    modifies Elements(list)`distances, Elements(list)`distanceByWord, Elements(list)`rangeMin, Elements(list)`rangeMax
    ensures Holds(list, RowFrom(keys, start, a, a + 1))
  {
    ghost var cur := start;
    var b := a + 1;
    while b < |list|
      invariant a + 1 <= b <= |list|
      invariant Holds(list, cur)
      invariant RowFrom(keys, cur, a, b) == RowFrom(keys, start, a, a + 1)
    {
      VisitPair(list, a, b, keys, cur);
      cur := AfterPair(keys, cur, a, b);
      b := b + 1;
    }
  }

  /**
   * The pair loops of the statistics pass: every unordered pair of distinct words once,
   * with the engine's answer recorded in both unless it gave up.
   */
  method RecordDistances(list: seq<Word>, ghost start: seq<DistanceRecords>)
    requires Unique(KeysOf(list)) && Holds(list, start)
    modifies Elements(list)`distances, Elements(list)`distanceByWord, Elements(list)`rangeMin, Elements(list)`rangeMax
    ensures Holds(list, RowsFrom(KeysOf(list), start, 0))
  {
    ghost var keys, cur := KeysOf(list), start;
    var a := 0;
    while a < |list|
      invariant a <= |list|
      invariant Holds(list, cur)
      invariant RowsFrom(keys, cur, a) == RowsFrom(keys, start, 0)
    {
      VisitRow(list, a, keys, cur);
      cur := RowFrom(keys, cur, a, a + 1);
      a := a + 1;
    }
  }
}
