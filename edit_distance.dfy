/**
 * The bounded Wagner–Fischer computation of `WordEditDistance.edit_distance`: a flat
 * (h*w) matrix filled row by row, with a running `dist` that follows one cell per row
 * and stops the computation after a row whose followed cell exceeds `max_dist`.
 */
module EditDistance {
  import opened Wrappers
  import opened Levenshtein

  /** `WordEditDistance.DISTANCE_BEYOND`. */
  const DistanceBeyond: int := -1

  /** Cell (y, x) of the matrix: the distance between the first x characters of `a` and the first y of `b`. */
  ghost function Cell(a: string, b: string, x: nat, y: nat): nat
    requires x <= |a| && y <= |b|
  {
    Lev(a[..x], b[..y])
  }

  /** The first row and the first column count up from 0. */
  lemma EdgeCells(a: string, b: string, x: nat, y: nat)
    requires x <= |a| && y <= |b|
    ensures Cell(a, b, x, 0) == x && Cell(a, b, 0, y) == y
  {
    assert |a[..x]| == x && |b[..0]| == 0;
    assert |a[..0]| == 0 && |b[..y]| == y;
  }

  /** Every other cell is the cheapest of the moves from its left, upper and diagonal neighbours. */
  lemma CellStep(a: string, b: string, x: nat, y: nat)
    requires 1 <= x <= |a| && 1 <= y <= |b|
    ensures Cell(a, b, x, y)
      == Min3(Cell(a, b, x - 1, y) + 1, Cell(a, b, x, y - 1) + 1, Cell(a, b, x - 1, y - 1) + Cost(a[x - 1], b[y - 1]))
  {
    var s, t := a[..x], b[..y];
    assert s[..|s| - 1] == a[..x - 1] && s[|s| - 1] == a[x - 1];
    assert t[..|t| - 1] == b[..y - 1] && t[|t| - 1] == b[y - 1];
    assert |s| > 0 && |t| > 0;
  }

  /**
   * The test that decides whether `dist` follows the cell just computed: the diagonal,
   * anything right of it in the last row, and the last column below the diagonal.
   */
  predicate Follows(x: int, y: int, w: int, h: int) {
    x == y || (y == h - 1 && x > y) || (x == w - 1 && y > x)
  }

  /** The column of the last followed cell of row y (1 <= y <= |b|) when `a` is not empty. */
  function FollowedColumn(y: nat, n: nat, m: nat): nat {
    if y == m then n else if y < n then y else n
  }

  /** The value of `dist` at the end of row y (an empty `a` leaves it at its initial 0). */
  ghost function RowValue(a: string, b: string, y: nat): nat
    requires 1 <= y <= |b|
  {
    if |a| == 0 then 0 else Cell(a, b, FollowedColumn(y, |a|, |b|), y)
  }

  /** Some row ends with `dist` above the bound, which stops the computation there. */
  ghost predicate AbortsEarly(a: string, b: string, maxd: int) {
    exists y :: 1 <= y <= |b| && RowValue(a, b, y) > maxd
  }

  /** No row among the first n ends above the bound: the loop gets past row n. */
  ghost predicate RowsWithin(a: string, b: string, maxd: int, n: nat)
    requires n <= |b|
  {
    n == 0 || (RowsWithin(a, b, maxd, n - 1) && RowValue(a, b, n) <= maxd)
  }

  lemma {:induction false} RowsWithinAll(a: string, b: string, maxd: int, n: nat)
    requires n <= |b|
    ensures RowsWithin(a, b, maxd, n) <==> forall yy :: 1 <= yy <= n ==> RowValue(a, b, yy) <= maxd
  {
    if n > 0 {
      RowsWithinAll(a, b, maxd, n - 1);
    }
  }

  /**
   * What the computation returns: for an empty key 0 (or beyond, under a negative bound);
   * otherwise DistanceBeyond when some row aborts, and the Levenshtein distance when none does.
   */
  ghost function BoundedDistance(a: string, b: string, maxd: int): int {
    if |a| == 0 || |b| == 0 then (if 0 <= maxd then 0 else DistanceBeyond)
    else if AbortsEarly(a, b, maxd) then DistanceBeyond
    else Lev(a, b)
  }

  /** `max_dist` when it is omitted: the larger of w = |a|+1 and h = |b|+1. */
  function DefaultMaxDist(a: string, b: string): int {
    if |a| >= |b| then |a| + 1 else |b| + 1
  }

  function EffectiveMaxDist(a: string, b: string, maxDist: Option<int>): int {
    match maxDist
    case Some(m) => m
    case None => DefaultMaxDist(a, b)
  }

  lemma FlatIndex(y: nat, x: nat, w: nat, h: nat)
    requires y < h && x < w
    ensures 0 <= y * w && y * w + x + 1 <= h * w
    ensures (y + 1) * w == y * w + w
  {
    assert y * w + w == (y + 1) * w;
    assert (y + 1) * w <= h * w;
  }

  /** Offset y*w of row y lies after every earlier row and, for y >= 1, after the first row. */
  lemma ColumnOffsets(y: nat, w: nat, h: nat)
    requires y < h && 1 <= w
    ensures 0 <= y * w < h * w
    ensures forall i :: 0 <= i < y ==> i * w + w <= y * w
    ensures y >= 1 ==> w <= y * w
  {
    FlatIndex(y, 0, w, h);
    forall i | 0 <= i < y ensures i * w + w <= y * w {
      RowsApart(i, y, w);
    }
    if y >= 1 {
      RowsApart(0, y, w);
    }
  }

  lemma {:induction false} RowsApart(i: nat, j: nat, w: nat)
    requires i < j
    ensures i * w + w <= j * w
    decreases j
  {
    if i + 1 < j {
      RowsApart(i, j - 1, w);
      assert (j - 1) * w + w == j * w;
    } else {
      assert (i + 1) * w == i * w + w;
    }
  }

  /** Within a row, the followed cell is the last one the `Follows` test picks. */
  lemma FollowedIsLast(x: nat, y: nat, n: nat, m: nat)
    requires 1 <= x <= n && 1 <= y <= m
    ensures x == FollowedColumn(y, n, m) ==> Follows(x, y, n + 1, m + 1)
    ensures Follows(x, y, n + 1, m + 1) ==> x <= FollowedColumn(y, n, m)
  {
  }

  /** What the row loop's exit state says about the returned value. */
  lemma ExitState(a: string, b: string, maxd: int, y: nat, dist: int)
    requires 1 <= y <= |b| + 1 && (y == |b| + 1 || dist == -1)
    requires dist == -1 ==> 2 <= y && RowValue(a, b, y - 1) > maxd
    requires dist != -1 ==> RowsWithin(a, b, maxd, y - 1)
    requires dist != -1 ==> dist == if y == 1 then 0 else RowValue(a, b, y - 1)
    ensures (if dist != -1 && dist <= maxd then dist else DistanceBeyond) == BoundedDistance(a, b, maxd)
  {
    if dist == -1 {
      assert 1 <= y - 1 <= |b| && RowValue(a, b, y - 1) > maxd;
    } else if |a| > 0 && |b| > 0 {
      RowsWithinAll(a, b, maxd, |b|);
      assert a[..|a|] == a && b[..|b|] == b;
    }
  }

  /**
   * The matrix with its first row (0, 1, ..., w-1) and first column (0, 1, ..., h-1)
   * filled in; the other cells are not yet written.
   */
  method NewMatrix(w: nat, h: nat) returns (d: array<int>)
    requires 1 <= w && 1 <= h
    ensures fresh(d) && d.Length == h * w
    ensures forall x :: 0 <= x < w ==> d[x] == x
    ensures forall y :: 0 <= y < h ==> d[y * w] == y
  {
    FlatIndex(h - 1, w - 1, w, h);
    d := new int[h * w];
    // first row
    var x := 0;
    while x < w
      invariant 0 <= x <= w
      invariant forall i :: 0 <= i < x ==> d[i] == i
    {
      d[x] := x;
      x := x + 1;
    }
    // first column
    var y := 0;
    while y < h
      invariant 0 <= y <= h
      invariant forall i :: 0 <= i < y ==> i * w < d.Length && d[i * w] == i
      invariant forall i :: 1 <= i < w ==> d[i] == i
    {
      ColumnOffsets(y, w, h);
      d[y * w] := y;
      y := y + 1;
    }
    assert d[0 * w] == 0;
  }

  /**
   * The cost of cell (y, x) from its left, upper and diagonal neighbours: start from
   * the insertion, then keep the deletion or the substitution when strictly cheaper.
   */
  method CheapestMove(left: int, up: int, diag: int, sc: int) returns (mc: int)
    ensures mc <= left + 1 && mc <= up + 1 && mc <= diag + sc
    ensures mc == left + 1 || mc == up + 1 || mc == diag + sc
  {
    mc := left + 1;
    var c := up + 1;
    if c < mc {
      mc := c;
    }
    c := diag + sc;
    if c < mc {
      mc := c;
    }
  }

  /**
   * Row y of the matrix computed from row y-1 (`up`) by the recurrence: it starts at y
   * and every later entry is the cheapest of its three neighbours' moves.
   */
  ghost predicate NextRow(a: string, c: char, y: nat, up: seq<nat>, cur: seq<nat>) {
    |up| == |a| + 1 && |cur| == |a| + 1 && cur[0] == y
    && forall x :: 1 <= x <= |a| ==> StepAt(a, c, up, cur, x)
  }

  /** Entry x of `cur` follows from its left, upper and diagonal neighbours. */
  ghost predicate StepAt(a: string, c: char, up: seq<nat>, cur: seq<nat>, x: nat) {
    1 <= x <= |a| && x < |up| && x < |cur|
    && cur[x] == Min3(cur[x - 1] + 1, up[x] + 1, up[x - 1] + Cost(a[x - 1], c))
  }

  /** A row of cells is followed by the next row of cells. */
  lemma RowOfCells(a: string, b: string, y: nat, up: seq<nat>, cur: seq<nat>)
    requires 1 <= y <= |b| && NextRow(a, b[y - 1], y, up, cur)
    requires forall x :: 0 <= x <= |a| ==> up[x] == Cell(a, b, x, y - 1)
    ensures forall x :: 0 <= x <= |a| ==> cur[x] == Cell(a, b, x, y)
  {
    forall x | 0 <= x <= |a| ensures cur[x] == Cell(a, b, x, y) {
      RowPrefixOfCells(a, b, y, up, cur, x);
    }
  }

  /** After row y is filled, it holds cells and `dist` holds the row's value. */
  lemma RowAdvance(a: string, b: string, y: nat, up: seq<nat>, cur: seq<nat>, before: int, dist: int)
    requires 1 <= y <= |b| && NextRow(a, b[y - 1], y, up, cur)
    requires forall x :: 0 <= x <= |a| ==> up[x] == Cell(a, b, x, y - 1)
    requires before == if y == 1 then 0 else RowValue(a, b, y - 1)
    requires dist == if |a| == 0 then before else cur[FollowedColumn(y, |a|, |b|)]
    ensures forall x :: 0 <= x <= |a| ==> cur[x] == Cell(a, b, x, y)
    ensures dist == RowValue(a, b, y)
  {
    RowOfCells(a, b, y, up, cur);
  }

  lemma {:induction false} RowPrefixOfCells(a: string, b: string, y: nat, up: seq<nat>, cur: seq<nat>, x: nat)
    requires 1 <= y <= |b| && NextRow(a, b[y - 1], y, up, cur) && x <= |a|
    requires forall i :: 0 <= i <= |a| ==> up[i] == Cell(a, b, i, y - 1)
    ensures cur[x] == Cell(a, b, x, y)
  {
    if x > 0 {
      RowPrefixOfCells(a, b, y, up, cur, x - 1);
      assert StepAt(a, b[y - 1], up, cur, x);
      assert up[x] == Cell(a, b, x, y - 1) && up[x - 1] == Cell(a, b, x - 1, y - 1);
      CellStep(a, b, x, y);
    } else {
      EdgeCells(a, b, 0, y);
    }
  }

  /** Appending entry `x`, computed from its neighbours, keeps every earlier entry's step. */
  lemma StepsExtend(a: string, c: char, up: seq<nat>, cur0: seq<nat>, cur: seq<nat>, x: nat)
    requires 1 <= x <= |a| && x < |up| && |cur0| == x
    requires forall i :: 1 <= i < x ==> StepAt(a, c, up, cur0, i)
    requires cur == cur0 + [Min3(cur0[x - 1] + 1, up[x] + 1, up[x - 1] + Cost(a[x - 1], c))]
    ensures forall i :: 1 <= i <= x ==> StepAt(a, c, up, cur, i)
  {
    forall i | 1 <= i <= x ensures StepAt(a, c, up, cur, i) {
      if i < x {
        assert StepAt(a, c, up, cur0, i);
      }
    }
  }

  /**
   * One pass of the inner loop: fills row y (1 <= y <= |b|, starting at offset `top`) from
   * row y-1 and returns the new `dist`, which is the row's followed cell (unchanged when
   * `a` is empty).
   */
  method FillRow(d: array<int>, a: string, b: string, y: nat, ghost top: nat, ghost up: seq<nat>, dist: int)
      returns (dist': int, ghost cur: seq<nat>)
    requires 1 <= y <= |b| && top == y * (|a| + 1) && top + |a| + 1 <= d.Length
    requires d.Length == (|b| + 1) * (|a| + 1) && |up| == |a| + 1
    requires forall k :: top - (|a| + 1) <= k < top ==> d[k] == up[k - (top - (|a| + 1))]
    requires d[top] == y
    modifies d
    ensures NextRow(a, b[y - 1], y, up, cur)
    ensures forall k :: top <= k < top + |a| + 1 ==> d[k] == cur[k - top]
    ensures forall k :: 0 <= k < top || top + |a| + 1 <= k < d.Length ==> d[k] == old(d[k])
    ensures dist' == if |a| == 0 then dist else cur[FollowedColumn(y, |a|, |b|)]
  {
    var w := |a| + 1;
    var h := |b| + 1;
    var row := y * w;
    var prev := (y - 1) * w;
    assert 0 <= prev && prev + w == row by {
      FlatIndex(y - 1, 0, w, h);
    }
    assert row == top && row + w <= d.Length;
    ghost var c := b[y - 1];
    cur := [y];
    dist' := dist;
    var x := 1;
    while x < w
      invariant 1 <= x <= w && |cur| == x && cur[0] == y
      invariant forall i :: 1 <= i < x ==> StepAt(a, c, up, cur, i)
      invariant forall k :: 0 <= k < row || row + x <= k < d.Length ==> d[k] == old(d[k])
      invariant forall k :: row <= k < row + x ==> d[k] == cur[k - row]
      invariant w >= 2 && x > FollowedColumn(y, |a|, |b|) ==> dist' == cur[FollowedColumn(y, |a|, |b|)]
      invariant w == 1 ==> dist' == dist
    {
      var sc := if a[x - 1] == b[y - 1] then 0 else 1;
      assert d[row + (x - 1)] == cur[x - 1];
      assert d[prev + x] == old(d[prev + x]) == up[x];
      assert d[prev + (x - 1)] == old(d[prev + (x - 1)]) == up[x - 1];
      var mc := CheapestMove(d[row + (x - 1)], d[prev + x], d[prev + (x - 1)], sc);
      d[row + x] := mc;
      ghost var cur0 := cur;
      cur := cur + [Min3(cur[x - 1] + 1, up[x] + 1, up[x - 1] + Cost(a[x - 1], b[y - 1]))];
      StepsExtend(a, c, up, cur0, cur, x);
      FollowedIsLast(x, y, |a|, |b|);
      if Follows(x, y, w, h) {
        dist' := mc;
      }
      x := x + 1;
    }
  }

  /** Row `y` of the matrix from row `y - 1`: its cells, and the followed cell's value. */
  method ComputeRow(d: array<int>, a: string, b: string, y: nat, ghost top: nat, ghost up: seq<nat>, dist: int)
      returns (dist': int, ghost cur: seq<nat>)
    requires 1 <= y <= |b| && top == y * (|a| + 1) && top + |a| + 1 <= d.Length
    requires d.Length == (|b| + 1) * (|a| + 1) && |up| == |a| + 1
    requires forall k :: top - (|a| + 1) <= k < top ==> d[k] == up[k - (top - (|a| + 1))]
    requires d[top] == y
    requires forall x :: 0 <= x <= |a| ==> up[x] == Cell(a, b, x, y - 1)
    requires dist == if y == 1 then 0 else RowValue(a, b, y - 1)
    modifies d
    ensures |cur| == |a| + 1 && forall x :: 0 <= x <= |a| ==> cur[x] == Cell(a, b, x, y)
    ensures forall k :: top <= k < top + |a| + 1 ==> d[k] == cur[k - top]
    ensures forall k :: 0 <= k < top || top + |a| + 1 <= k < d.Length ==> d[k] == old(d[k])
    ensures dist' == RowValue(a, b, y)
  {
    dist', cur := FillRow(d, a, b, y, top, up, dist);
    RowAdvance(a, b, y, up, cur, dist, dist');
  }

  /**
   * Rows 1, 2, ... of the matrix, each from the one above, until the last row or until a
   * row's followed cell exceeds the bound, which sets `dist` to -1.
   */
  method FillRows(d: array<int>, a: string, b: string, w: nat, h: nat, maxd: int) returns (y: nat, dist: int)
    requires w == |a| + 1 && h == |b| + 1 && d.Length == h * w
    requires forall x :: 0 <= x < w ==> d[x] == x
    requires forall i :: 0 <= i < h ==> d[i * w] == i
    modifies d
    ensures 1 <= y <= |b| + 1 && (y == |b| + 1 || dist == -1)
    ensures dist == -1 ==> 2 <= y && RowValue(a, b, y - 1) > maxd
    ensures dist != -1 ==> RowsWithin(a, b, maxd, y - 1)
    ensures dist != -1 ==> dist == if y == 1 then 0 else RowValue(a, b, y - 1)
  {
    ghost var init := d[..];
    forall i | 0 <= i < h ensures i * w < |init| && init[i * w] == i {
      FlatIndex(i, 0, w, h);
    }
    ghost var up: seq<nat> := seq(w, i requires 0 <= i < w => i);
    forall x | 0 <= x <= |a| ensures up[x] == Cell(a, b, x, 0) {
      EdgeCells(a, b, x, 0);
    }

    dist := 0;
    y := 1;
    ghost var top: nat := w;
    while y < h && dist != -1
      invariant 1 <= y <= h && top == y * w && w <= top <= d.Length
      invariant forall k :: top <= k < d.Length ==> d[k] == init[k]
      invariant |up| == w && forall k :: top - w <= k < top ==> d[k] == up[k - (top - w)]
      invariant forall x :: 0 <= x <= |a| ==> up[x] == Cell(a, b, x, y - 1)
      invariant dist == -1 ==> 2 <= y && RowValue(a, b, y - 1) > maxd
      invariant dist != -1 ==> RowsWithin(a, b, maxd, y - 1)
      invariant dist != -1 ==> dist == if y == 1 then 0 else RowValue(a, b, y - 1)
    {
      assert top + w == (y + 1) * w && top + w <= d.Length && d[top] == y by {
        FlatIndex(y, w - 1, w, h);
      }
      ghost var cur;
      dist, cur := ComputeRow(d, a, b, y, top, up, dist);
      if dist > maxd {
        dist := -1;
      }
      y := y + 1;
      top := top + w;
      up := cur;
    }
  }

  /**
   * `WordEditDistance.edit_distance` on two keys: the Levenshtein distance when it is
   * reached without any row's followed cell exceeding the bound, DistanceBeyond otherwise.
   */
  method ComputeEditDistance(a: string, b: string, maxDist: Option<int>) returns (r: int)
    ensures r == BoundedDistance(a, b, EffectiveMaxDist(a, b, maxDist))
  {
    var w := |a| + 1;
    var h := |b| + 1;
    var maxd := if maxDist.Some? then maxDist.value else if w >= h then w else h;
    assert maxd == EffectiveMaxDist(a, b, maxDist);
    var d := NewMatrix(w, h);
    var y, dist := FillRows(d, a, b, w, h, maxd);
    if dist != -1 && dist <= maxd {
      r := dist;
    } else {
      r := DistanceBeyond;
    }
    ExitState(a, b, maxd, y, dist);
  }

  /**
   * For two non-empty keys the result is either DistanceBeyond or the exact Levenshtein
   * distance, and in the second case it is within the bound.
   */
  lemma ExactOrBeyond(a: string, b: string, maxd: int)
    requires |a| > 0 && |b| > 0
    ensures BoundedDistance(a, b, maxd) == DistanceBeyond
         || (BoundedDistance(a, b, maxd) == Lev(a, b) && Lev(a, b) <= maxd)
  {
    if !AbortsEarly(a, b, maxd) {
      assert RowValue(a, b, |b|) <= maxd;
      assert a[..|a|] == a && b[..|b|] == b;
    }
  }

  /** Keys farther apart than the bound are always reported as DistanceBeyond. */
  lemma BeyondWhenFar(a: string, b: string, maxd: int)
    requires |a| > 0 && |b| > 0 && Lev(a, b) > maxd
    ensures BoundedDistance(a, b, maxd) == DistanceBeyond
  {
    assert a[..|a|] == a && b[..|b|] == b;
    assert RowValue(a, b, |b|) > maxd;
  }

  /** No cell of the matrix exceeds the longer of its two prefixes. */
  lemma RowValueBound(a: string, b: string, y: nat)
    requires 1 <= y <= |b|
    ensures RowValue(a, b, y) <= if |a| >= |b| then |a| else |b|
  {
    if |a| > 0 {
      LevAtMostLonger(a[..FollowedColumn(y, |a|, |b|)], b[..y]);
    }
  }

  /** Without `max_dist` the bound is never reached, so the result is the exact distance. */
  lemma DefaultBoundIsExact(a: string, b: string)
    requires |a| > 0 && |b| > 0
    ensures BoundedDistance(a, b, DefaultMaxDist(a, b)) == Lev(a, b)
  {
    if AbortsEarly(a, b, DefaultMaxDist(a, b)) {
      var y :| 1 <= y <= |b| && RowValue(a, b, y) > DefaultMaxDist(a, b);
      RowValueBound(a, b, y);
    }
  }

  /** Without `max_dist` the result does not depend on the order of the two keys. */
  lemma DefaultBoundSymmetric(a: string, b: string)
    requires |a| > 0 && |b| > 0
    ensures BoundedDistance(a, b, DefaultMaxDist(a, b)) == BoundedDistance(b, a, DefaultMaxDist(b, a))
  {
    DefaultBoundIsExact(a, b);
    DefaultBoundIsExact(b, a);
    LevSymmetric(a, b);
  }

  /** An empty key is at distance 0 from any other key, whatever its length, unless the bound is negative. */
  lemma EmptyKeyDistance(b: string, maxd: int)
    ensures BoundedDistance("", b, maxd) == BoundedDistance(b, "", maxd) == if 0 <= maxd then 0 else DistanceBeyond
  {
  }

  // The early stop compares the followed cell of each row with the bound, but that cell
  // is not a lower bound of the final distance when the keys differ in length: one extra
  // leading character puts every diagonal cell off by a shift.

  lemma EarlyAbortShape(x: char, p: char, q: char, r: char)
    requires x != p && p != q
    ensures Lev([x, p, q, r], [p, q, r]) == 1
    ensures BoundedDistance([x, p, q, r], [p, q, r], 1) == DistanceBeyond
  {
    LeadingExtra(x, p, q, r);
    ShiftedPrefixes(x, p, q);
    assert [x, p, q, r][..2] == [x, p] && [p, q, r][..2] == [p, q];
    assert RowValue([x, p, q, r], [p, q, r], 2) == 2;
  }

  lemma LeadingExtra(x: char, p: char, q: char, r: char)
    ensures Lev([x, p, q, r], [p, q, r]) == 1
  {
    CommonLast([x], [], p);
    CommonLast([x, p], [p], q);
    CommonLast([x, p, q], [p, q], r);
    assert [x] + [p] == [x, p] && [] + [p] == [p];
    assert [x, p] + [q] == [x, p, q] && [p] + [q] == [p, q];
    assert [x, p, q] + [r] == [x, p, q, r] && [p, q] + [r] == [p, q, r];
    LevAtLeastLengthGap([x, p, q, r], [p, q, r]);
  }

  lemma ShiftedPrefixes(x: char, p: char, q: char)
    requires x != p && p != q
    ensures Lev([x, p], [p, q]) == 2
  {
    LevZeroIffEqual([x], [p]);
    LevAtLeastLengthGap([x], [p, q]);
    LevAtLeastLengthGap([x, p], [p]);
    LevAtMostLonger([x], [p]);
    LevLowerSteps([x, p], [p, q]);
    LevSteps([x, p], [p, q]);
    assert [x, p][..1] == [x] && [p, q][..1] == [p];
  }

  /** "xabc" and "abc" are one edit apart, yet under max_dist 1 the result is DistanceBeyond. */
  lemma EarlyAbortMissesDistance()
    ensures Lev("xabc", "abc") == 1 && BoundedDistance("xabc", "abc", 1) == DistanceBeyond
  {
    EarlyAbortShape('x', 'a', 'b', 'c');
  }

  /** What the method's documentation promises: the distance, or DistanceBeyond when it exceeds the bound. */
  ghost function IntendedDistance(a: string, b: string, maxd: int): int {
    if Lev(a, b) <= maxd then Lev(a, b) else DistanceBeyond
  }

  /**
   * The per-row stop also makes the answer depend on the order of the keys: "ab" against
   * "bab" under bound 1 gives up, while "bab" against "ab" finds the distance 1.
   */
  lemma ArgumentOrderMatters()
    ensures BoundedDistance("ab", "bab", 1) == DistanceBeyond
    ensures BoundedDistance("bab", "ab", 1) == 1
  {
    ShortFirstAborts('a', 'b');
    LongFirstFinds('a', 'b');
  }

  /** The shorter key first: row 2 follows the diagonal cell Lev([p, q], [q, p]) = 2. */
  lemma ShortFirstAborts(p: char, q: char)
    requires p != q
    ensures BoundedDistance([p, q], [q, p, q], 1) == DistanceBeyond
  {
    ShiftedPrefixes(p, q, p);
    assert [p, q][..2] == [p, q] && [q, p, q][..2] == [q, p];
    assert RowValue([p, q], [q, p, q], 2) == 2;
  }

  /** The longer key first: row 1 follows Lev([q], [p]) = 1 and row 2, the last, the distance 1. */
  lemma LongFirstFinds(p: char, q: char)
    requires p != q
    ensures BoundedDistance([q, p, q], [p, q], 1) == 1
  {
    LevZeroIffEqual([q], [p]);
    LevAtMostLonger([q], [p]);
    CommonLast([q], [], p);
    CommonLast([q, p], [p], q);
    assert [q] + [p] == [q, p] && [] + [p] == [p] && [q, p] + [q] == [q, p, q] && [p] + [q] == [p, q];
    LevAtLeastLengthGap([q, p, q], [p, q]);
    forall y | 1 <= y <= 2 ensures RowValue([q, p, q], [p, q], y) <= 1 {
      if y == 1 {
        assert [q, p, q][..1] == [q] && [p, q][..1] == [p];
      } else {
        assert [q, p, q][..3] == [q, p, q] && [p, q][..2] == [p, q];
      }
    }
  }

  /** Whenever no row stops the computation early, the code as written keeps that promise. */
  lemma IntendedWhenNoAbort(a: string, b: string, maxd: int)
    requires |a| > 0 && |b| > 0 && !AbortsEarly(a, b, maxd)
    ensures BoundedDistance(a, b, maxd) == IntendedDistance(a, b, maxd)
  {
    ExactOrBeyond(a, b, maxd);
  }

  /**
   * The same matrix computation without the per-row stop: all rows are filled and the
   * bound is applied to the last cell only.
   */
  method ComputeEditDistanceCorrected(a: string, b: string, maxDist: Option<int>) returns (r: int)
    ensures r == IntendedDistance(a, b, EffectiveMaxDist(a, b, maxDist))
  {
    var w := |a| + 1;
    var h := |b| + 1;
    var maxd := if maxDist.Some? then maxDist.value else if w >= h then w else h;
    assert maxd == EffectiveMaxDist(a, b, maxDist);

    var d := NewMatrix(w, h);
    ghost var init := d[..];
    forall i | 0 <= i < h ensures i * w < |init| && init[i * w] == i {
      FlatIndex(i, 0, w, h);
    }
    ghost var up: seq<nat> := seq(w, i requires 0 <= i < w => i);
    forall x | 0 <= x <= |a| ensures up[x] == Cell(a, b, x, 0) {
      EdgeCells(a, b, x, 0);
    }

    var y := 1;
    ghost var top: nat := w;
    while y < h
      invariant 1 <= y <= h && top == y * w && w <= top <= d.Length
      invariant forall k :: top <= k < d.Length ==> d[k] == init[k]
      invariant |up| == w && forall k :: top - w <= k < top ==> d[k] == up[k - (top - w)]
      invariant forall x :: 0 <= x <= |a| ==> up[x] == Cell(a, b, x, y - 1)
    {
      assert top + w == (y + 1) * w && top + w <= d.Length && d[top] == y by {
        FlatIndex(y, w - 1, w, h);
      }
      ghost var cur;
      var ignored;
      ignored, cur := FillRow(d, a, b, y, top, up, 0);
      RowOfCells(a, b, y, up, cur);
      y := y + 1;
      top := top + w;
      up := cur;
    }
    assert top == d.Length by {
      FlatIndex(h - 1, w - 1, w, h);
    }
    r := d[h * w - 1];
    assert r == up[|a|] == Lev(a, b) by {
      assert a[..|a|] == a && b[..|b|] == b;
    }
    if r > maxd {
      r := DistanceBeyond;
    }
  }
}
