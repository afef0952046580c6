/**
 * The frequency ranking of the vocabulary: words in order of non-increasing frequency,
 * ties kept in order of first appearance, as a stable sort with the comparator
 * `w2.frequency - w1.frequency` produces.
 */
module Ranking {
  import opened Collections

  /** Position `i` ranks ahead of position `j`: more frequent, or as frequent and earlier. */
  predicate Ahead(f: seq<nat>, i: nat, j: nat)
    requires i < |f| && j < |f|
  {
    f[i] > f[j] || (f[i] == f[j] && i < j)
  }

  /** `order` is a permutation of the positions of `f`. */
  predicate Permutes(order: seq<nat>, n: nat) {
    |order| == n && Distinct(order) && forall k :: 0 <= k < |order| ==> order[k] < n
  }

  /** Every position in `order` ranks ahead of every later one. */
  predicate RankedBy(f: seq<nat>, order: seq<nat>)
    requires forall k :: 0 <= k < |order| ==> order[k] < |f|
  {
    forall a, b :: 0 <= a < b < |order| ==> Ahead(f, order[a], order[b])
  }

  /** The tail of a sequence without repetitions holds every element but the head. */
  lemma TailElements<T>(s: seq<T>)
    requires |s| > 0 && Distinct(s)
    ensures Elements(s[1..]) == Elements(s) - {s[0]}
    ensures Distinct(s[1..])
  {
    assert s == [s[0]] + s[1..];
  }

  /** The head of a ranking is ahead of every other position in it. */
  lemma HeadAhead(f: seq<nat>, o: seq<nat>, y: nat)
    requires forall k :: 0 <= k < |o| ==> o[k] < |f|
    requires RankedBy(f, o) && y in o
    ensures y == o[0] || Ahead(f, o[0], y)
  {
    var q :| 0 <= q < |o| && o[q] == y;
    if q > 0 {
      assert Ahead(f, o[0], o[q]);
    }
  }

  /**
   * Two rankings of the same positions are equal: `Ahead` is a strict total order,
   * so the stable order is unique.
   */
  lemma {:induction false} RankingUnique(f: seq<nat>, o1: seq<nat>, o2: seq<nat>)
    requires Distinct(o1) && Distinct(o2) && Elements(o1) == Elements(o2)
    requires forall k :: 0 <= k < |o1| ==> o1[k] < |f|
    requires forall k :: 0 <= k < |o2| ==> o2[k] < |f|
    requires RankedBy(f, o1) && RankedBy(f, o2)
    ensures o1 == o2
    decreases |o1|
  {
    DistinctCard(o1);
    DistinctCard(o2);
    if |o1| > 0 {
      assert o1[0] in Elements(o2) && o2[0] in Elements(o1);
      HeadAhead(f, o1, o2[0]);
      HeadAhead(f, o2, o1[0]);
      TailElements(o1);
      TailElements(o2);
      RankingUnique(f, o1[1..], o2[1..]);
      assert o1 == [o1[0]] + o1[1..] && o2 == [o2[0]] + o2[1..];
    }
  }

  /** The position where `i` goes in a ranking of smaller positions: after all that rank ahead of it. */
  method InsertionPoint(f: seq<nat>, order: seq<nat>, i: nat) returns (p: nat)
    requires i < |f|
    requires forall k :: 0 <= k < |order| ==> order[k] < i
    requires RankedBy(f, order)
    ensures p <= |order|
    ensures forall k :: 0 <= k < p ==> Ahead(f, order[k], i)
    ensures forall k :: p <= k < |order| ==> Ahead(f, i, order[k])
  {
    p := 0;
    while p < |order| && f[order[p]] >= f[i]
      invariant p <= |order|
      invariant forall k :: 0 <= k < p ==> Ahead(f, order[k], i)
    {
      p := p + 1;
    }
    if p < |order| {
      forall k | p <= k < |order| ensures Ahead(f, i, order[k]) {
        assert k == p || Ahead(f, order[p], order[k]);
      }
    }
  }

  /**
   * The stable ranking of positions by frequency, built by insertion: each position goes
   * after every earlier position at least as frequent.
   */
  method RankByFrequency(f: seq<nat>) returns (order: seq<nat>)
    ensures Permutes(order, |f|)
    ensures RankedBy(f, order)
  {
    order := [];
    var i := 0;
    while i < |f|
      invariant i <= |f|
      invariant Permutes(order, i)
      invariant RankedBy(f, order)
    {
      var p := InsertionPoint(f, order, i);
      ghost var old_order := order;
      order := order[..p] + [i] + order[p..];
      assert forall k :: 0 <= k < |order| ==> (k < p ==> order[k] == old_order[k]) && (k == p ==> order[k] == i) && (k > p ==> order[k] == old_order[k - 1]);
      i := i + 1;
    }
  }
}
