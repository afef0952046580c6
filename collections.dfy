/**
 * JavaScript collection behaviour the generator relies on: `Array.prototype.slice`
 * with relative (negative) indices, the insertion order of a `Set`, and the
 * cardinality facts that go with sequences without repetitions.
 */
module Collections {

  predicate Distinct<T(==)>(s: seq<T>) {
    forall i, j :: 0 <= i < j < |s| ==> s[i] != s[j]
  }

  /** The element at position `a` occurs nowhere else. */
  predicate UniqueAt<T(==)>(s: seq<T>, a: nat)
    requires a < |s|
  {
    forall j :: 0 <= j < |s| && j != a ==> s[j] != s[a]
  }

  /**
   * No repetitions, stated position by position: the fact about one position comes out
   * only where that position is asked about.
   */
  predicate Unique<T(==)>(s: seq<T>) {
    forall a :: 0 <= a < |s| ==> UniqueAt(s, a)
  }

  lemma UniqueDistinct<T>(s: seq<T>)
    ensures Unique(s) <==> Distinct(s)
  {
    if Unique(s) {
      forall i, j | 0 <= i < j < |s| ensures s[i] != s[j] {
        assert UniqueAt(s, i);
      }
    }
  }

  function Elements<T>(s: seq<T>): set<T> {
    set x | x in s
  }

  /** A relative index as `slice` resolves it: negative counts from the end; clamped to `[0, len]`. */
  function Relative(n: int, len: nat): (r: nat)
    ensures r <= len
    ensures n >= 0 ==> r == if n <= len then n else len
    ensures n < 0 ==> r == if len + n >= 0 then len + n else 0
  {
    if n < 0 then (if len + n >= 0 then len + n else 0) else if n <= len then n else len
  }

  /** `s.slice(start, end)`. */
  function Slice<T>(s: seq<T>, start: int, end: int): seq<T> {
    var a := Relative(start, |s|);
    var b := Relative(end, |s|);
    if a < b then s[a..b] else []
  }

  /** `s.slice(start)`. */
  function SliceFrom<T>(s: seq<T>, start: int): seq<T> {
    s[Relative(start, |s|)..]
  }

  /** `slice(0, n)` with `n >= 0` keeps the first `min(n, |s|)` elements. */
  lemma SliceHead<T>(s: seq<T>, n: int)
    requires n >= 0
    ensures Slice(s, 0, n) == s[..if n <= |s| then n else |s|]
  {
  }

  /** `slice(-n)` with `n > 0` keeps the last `min(n, |s|)` elements. */
  lemma SliceTail<T>(s: seq<T>, n: int)
    requires n > 0
    ensures SliceFrom(s, -n) == s[if n <= |s| then |s| - n else 0..]
  {
  }

  /**
   * Adding the elements of `xs` one by one to a `Set` whose insertion order is `s`:
   * an element already present keeps its place.
   */
  function AddAll<T(==)>(s: seq<T>, xs: seq<T>): (r: seq<T>)
    ensures Elements(r) == Elements(s) + Elements(xs)
    ensures Distinct(s) ==> Distinct(r)
    ensures |s| <= |r| && r[..|s|] == s
    decreases |xs|
  {
    if |xs| == 0 then s
    else
      var s' := if xs[0] in s then s else s + [xs[0]];
      assert Elements(xs) == {xs[0]} + Elements(xs[1..]);
      assert Elements(s') == Elements(s) + {xs[0]};
      AddAll(s', xs[1..])
  }

  /** Adding new, distinct elements appends them in order. */
  lemma {:induction false} AddAllFresh<T>(s: seq<T>, xs: seq<T>)
    requires Distinct(xs)
    requires forall x :: x in xs ==> x !in s
    ensures AddAll(s, xs) == s + xs
    decreases |xs|
  {
    if |xs| > 0 {
      assert xs[0] !in s;
      forall x | x in xs[1..] ensures x !in s + [xs[0]] {
        var i :| 0 <= i < |xs[1..]| && xs[1..][i] == x;
        assert xs[i + 1] == x;
      }
      AddAllFresh(s + [xs[0]], xs[1..]);
      assert s + [xs[0]] + xs[1..] == s + xs;
    }
  }

  /** The last position of `x` in `s`, or -1 when it does not occur. */
  function IndexOf<T(==)>(s: seq<T>, x: T): (i: int)
    ensures -1 <= i < |s|
    decreases |s|
  {
    if |s| == 0 then -1 else if s[|s| - 1] == x then |s| - 1 else IndexOf(s[..|s| - 1], x)
  }

  /** `IndexOf` finds every element, and what it finds is the element. */
  lemma {:induction false} IndexOfFinds<T>(s: seq<T>, x: T)
    ensures IndexOf(s, x) >= 0 <==> x in s
    ensures IndexOf(s, x) >= 0 ==> s[IndexOf(s, x)] == x
    decreases |s|
  {
    if |s| > 0 && s[|s| - 1] != x {
      IndexOfFinds(s[..|s| - 1], x);
      assert s == s[..|s| - 1] + [s[|s| - 1]];
    }
  }

  /** A sequence without repetitions has as many elements as its set. */
  lemma {:induction false} DistinctCard<T>(s: seq<T>)
    requires Distinct(s)
    ensures |Elements(s)| == |s|
    decreases |s|
  {
    if |s| > 0 {
      var t := s[..|s| - 1];
      DistinctCard(t);
      assert Elements(s) == Elements(t) + {s[|s| - 1]};
      assert s[|s| - 1] !in Elements(t);
    }
  }

  lemma {:induction false} SubsetCard<T>(a: set<T>, b: set<T>)
    requires a <= b
    ensures |a| <= |b|
    decreases |a|
  {
    if a != {} {
      var x :| x in a;
      SubsetCard(a - {x}, b - {x});
    }
  }

  /** Equal sets of equal size: a distinct sequence inside `k` with `|k|` elements covers `k`. */
  lemma DistinctWithin<T>(s: seq<T>, k: set<T>)
    requires Distinct(s)
    requires Elements(s) <= k
    ensures |s| <= |k|
    ensures |s| == |k| ==> Elements(s) == k
  {
    DistinctCard(s);
    SubsetCard(Elements(s), k);
    if |s| == |k| && Elements(s) != k {
      var x :| x in k && x !in Elements(s);
      SubsetCard(Elements(s) + {x}, k);
    }
  }
  /** A chain of equal neighbours: `f(k) == f(k + 1) == ... == f(n)`. */
  lemma {:induction false} ChainEqual<T>(f: nat -> T, k: nat, n: nat)
    requires k <= n
    requires forall j: nat :: k <= j < n ==> f(j) == f(j + 1)
    ensures f(k) == f(n)
    decreases n - k
  {
    if k < n {
      ChainEqual(f, k + 1, n);
    }
  }

  /** The numbers below `n`. */
  function Below(n: nat): (r: set<nat>)
    ensures forall q: int :: q in r <==> 0 <= q < n
    ensures |r| == n
  {
    if n == 0 then {}
    else
      var r := Below(n - 1);
      assert n - 1 !in r;
      r + {n - 1}
  }

  /** In a sequence without repetitions, an element of the first `m` comes before one that is not. */
  lemma PrefixPositions<T>(s: seq<T>, m: nat, a: nat, b: nat)
    requires Distinct(s) && m <= |s| && a < |s| && b < |s|
    requires s[a] in s[..m] && s[b] !in s[..m]
    ensures a < m <= b
  {
  }

  /** In a sequence without repetitions, an element from position `o` on comes after one that is not. */
  lemma SuffixPositions<T>(s: seq<T>, o: nat, a: nat, b: nat)
    requires Distinct(s) && o <= |s| && a < |s| && b < |s|
    requires s[a] in s[o..] && s[b] !in s[o..]
    ensures b < o <= a
  {
  }

  lemma DistinctPrefix<T>(s: seq<T>, n: nat)
    requires Distinct(s) && n <= |s|
    ensures Distinct(s[..n])
  {
    forall i, j | 0 <= i < j < n ensures s[..n][i] != s[..n][j] {
      assert s[..n][i] == s[i] && s[..n][j] == s[j];
    }
  }

  lemma DistinctSuffix<T>(s: seq<T>, n: nat)
    requires Distinct(s) && n <= |s|
    ensures Distinct(s[n..])
  {
    forall i, j | 0 <= i < j < |s| - n ensures s[n..][i] != s[n..][j] {
      assert s[n..][i] == s[n + i] && s[n..][j] == s[n + j];
    }
  }
}
