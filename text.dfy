/**
 * String helpers used by the tokenizer: JavaScript's `split` on a line-break class
 * and on runs of whitespace, `Array.prototype.join`, and the sentence-terminal test.
 */
module Text {

  /** JavaScript's `\s` character class. */
  predicate IsWhitespace(c: char) {
    c == '\t' || c == '\n' || c == '\U{000B}' || c == '\U{000C}' || c == '\r' || c == ' '
    || c == '\U{00A0}' || c == '\U{1680}' || ('\U{2000}' <= c <= '\U{200A}')
    || c == '\U{2028}' || c == '\U{2029}' || c == '\U{202F}' || c == '\U{205F}'
    || c == '\U{3000}' || c == '\U{FEFF}'
  }

  /** The class `[\n\r]` that separates lines. */
  predicate IsLineBreak(c: char) {
    c == '\n' || c == '\r'
  }

  /** The sentence-end pattern `[\.\?!]+` matches somewhere in the token. */
  predicate HasTerminal(s: string) {
    exists i :: 0 <= i < |s| && (s[i] == '.' || s[i] == '?' || s[i] == '!')
  }

  /** A token as the tokenizer produces it: non-empty and free of whitespace. */
  predicate IsCleanToken(s: string) {
    |s| > 0 && forall i :: 0 <= i < |s| ==> !IsWhitespace(s[i])
  }

  /** The character classes the tokenizer searches for. */
  datatype CharClass = LineBreak | Whitespace | NonWhitespace

  predicate InClass(c: char, cls: CharClass) {
    match cls
    case LineBreak => IsLineBreak(c)
    case Whitespace => IsWhitespace(c)
    case NonWhitespace => !IsWhitespace(c)
  }

  /** The first index at or after `from` whose character is in `cls`, or `|s|`. */
  function IndexWhere(s: string, cls: CharClass, from: nat): (i: nat)
    requires from <= |s|
    ensures from <= i <= |s|
    ensures forall j :: from <= j < i ==> !InClass(s[j], cls)
    ensures i < |s| ==> InClass(s[i], cls)
    decreases |s| - from
  {
    if from == |s| || InClass(s[from], cls) then from else IndexWhere(s, cls, from + 1)
  }

  /** `s.split(/[\n\r]/)`: every single line-break character separates two lines. */
  function SplitLines(s: string): (lines: seq<string>)
    ensures |lines| >= 1
    decreases |s|
  {
    var i := IndexWhere(s, LineBreak, 0);
    if i == |s| then [s] else [s[..i]] + SplitLines(s[i + 1..])
  }

  /** No line holds a line break. */
  lemma {:induction false} SplitLinesClean(s: string)
    ensures forall k :: 0 <= k < |SplitLines(s)| ==> forall j :: 0 <= j < |SplitLines(s)[k]| ==> !IsLineBreak(SplitLines(s)[k][j])
    decreases |s|
  {
    var i := IndexWhere(s, LineBreak, 0);
    if i < |s| {
      SplitLinesClean(s[i + 1..]);
    }
  }

  /**
   * `s.split(/[\s]+/)`: maximal runs of whitespace separate the pieces; a leading or
   * trailing run yields an empty first or last piece, and "" yields [""].
   */
  function SplitWs(s: string): (pieces: seq<string>)
    ensures |pieces| >= 1
    decreases |s|
  {
    var i := IndexWhere(s, Whitespace, 0);
    if i == |s| then [s]
    else
      var j := IndexWhere(s, NonWhitespace, i);
      [s[..i]] + SplitWs(s[j..])
  }

  /** No piece holds whitespace. */
  lemma {:induction false} SplitWsClean(s: string)
    ensures forall k :: 0 <= k < |SplitWs(s)| ==> forall j :: 0 <= j < |SplitWs(s)[k]| ==> !IsWhitespace(SplitWs(s)[k][j])
    decreases |s|
  {
    var i := IndexWhere(s, Whitespace, 0);
    if i < |s| {
      SplitWsClean(s[IndexWhere(s, NonWhitespace, i)..]);
    }
  }

  /** `xs.join(sep)`. */
  function Join(xs: seq<string>, sep: string): string {
    if |xs| == 0 then ""
    else if |xs| == 1 then xs[0]
    else xs[0] + sep + Join(xs[1..], sep)
  }

  /**
   * Joining clean tokens with one space and splitting the result on whitespace runs
   * gives the tokens back.
   */
  lemma {:induction false} SplitWsJoin(xs: seq<string>)
    requires |xs| >= 1
    requires forall k :: 0 <= k < |xs| ==> IsCleanToken(xs[k])
    ensures SplitWs(Join(xs, " ")) == xs
    decreases |xs|
  {
    var s := Join(xs, " ");
    if |xs| == 1 {
      assert s == xs[0];
      assert IndexWhere(s, Whitespace, 0) == |s|;
    } else {
      var rest := Join(xs[1..], " ");
      assert s == xs[0] + " " + rest;
      JoinStartsWith(xs[1..]);
      assert IndexWhere(s, Whitespace, 0) == |xs[0]| by {
        IndexWhereFirst(s, Whitespace, |xs[0]|);
      }
      assert IndexWhere(s, NonWhitespace, |xs[0]|) == |xs[0]| + 1 by {
        IndexWhereStep(s, NonWhitespace, |xs[0]|);
      }
      assert s[..|xs[0]|] == xs[0];
      assert s[|xs[0]| + 1..] == rest;
      SplitWsJoin(xs[1..]);
    }
  }

  /** A join of clean tokens starts with the first token's first character. */
  lemma {:induction false} JoinStartsWith(xs: seq<string>)
    requires |xs| >= 1
    requires forall k :: 0 <= k < |xs| ==> IsCleanToken(xs[k])
    ensures |xs[0]| > 0 && |Join(xs, " ")| > 0 && Join(xs, " ")[0] == xs[0][0]
  {
  }

  lemma IndexWhereFirst(s: string, cls: CharClass, i: nat)
    requires i < |s| && InClass(s[i], cls)
    requires forall j :: 0 <= j < i ==> !InClass(s[j], cls)
    ensures IndexWhere(s, cls, 0) == i
  {
  }

  lemma IndexWhereStep(s: string, cls: CharClass, i: nat)
    requires i + 1 < |s| && !InClass(s[i], cls) && InClass(s[i + 1], cls)
    ensures IndexWhere(s, cls, i) == i + 1
  {
  }

  /** Joining two non-empty lists and gluing the results with the separator joins their concatenation. */
  lemma {:induction false} JoinAppend(xs: seq<string>, ys: seq<string>, sep: string)
    requires |xs| > 0 && |ys| > 0
    ensures Join(xs, sep) + sep + Join(ys, sep) == Join(xs + ys, sep)
    decreases |xs|
  {
    if |xs| > 1 {
      JoinAppend(xs[1..], ys, sep);
      assert (xs + ys)[1..] == xs[1..] + ys;
    } else {
      assert (xs + ys)[1..] == ys;
    }
  }
}
