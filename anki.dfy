/**
 * Anki notes built from sentences: every word of a sentence becomes a numbered cloze
 * deletion `{{c<index>::<value>}}`, and each cloze carries the word's nearest
 * neighbours by edit distance as answer choices.
 */
module Anki {
  import opened Wrappers
  import opened Text
  import opened Collections
  import opened Vocabulary

  /** How many neighbouring words each cloze offers as choices. */
  const ChoicesMax := 4

  /** A cloze deletion: its number, the text it hides, the word key behind it, an optional hint. */
  datatype AnkiCloze = AnkiCloze(index: nat, value: string, key: string, hint: Option<string>)

  /** A note: the cloze text, its clozes in order, and the choices for each cloze. */
  datatype AnkiNote = AnkiNote(text: string, clozes: seq<AnkiCloze>, choices: map<AnkiCloze, seq<string>>)

  // Decimal numerals, as a template literal prints a number.

  predicate IsDigit(c: char) {
    '0' <= c <= '9'
  }

  function DigitChar(d: nat): (c: char)
    requires d < 10
    ensures IsDigit(c)
  {
    ('0' as int + d) as char
  }

  function DigitValue(c: char): (d: nat)
    requires IsDigit(c)
    ensures d < 10
  {
    c as int - '0' as int
  }

  /** The decimal numeral of `n`, without leading zeros. */
  function NatToString(n: nat): (s: string)
    decreases n
  {
    if n < 10 then [DigitChar(n)] else NatToString(n / 10) + [DigitChar(n % 10)]
  }

  predicate AllDigits(s: string) {
    forall i :: 0 <= i < |s| ==> IsDigit(s[i])
  }

  /** A numeral as `NatToString` writes it: digits only, and no leading zero unless it is "0". */
  predicate Canonical(s: string) {
    |s| >= 1 && AllDigits(s) && (|s| == 1 || s[0] != '0')
  }

  /** The value of a string of digits. */
  function ParseNat(s: string): nat
    requires AllDigits(s)
  {
    if |s| == 0 then 0 else ParseNat(s[..|s| - 1]) * 10 + DigitValue(s[|s| - 1])
  }

  /** The numeral of a number is canonical. */
  lemma {:induction false} NatToStringCanonical(n: nat)
    ensures Canonical(NatToString(n))
    ensures n >= 1 ==> NatToString(n)[0] != '0'
    decreases n
  {
    if n >= 10 {
      NatToStringCanonical(n / 10);
      assert NatToString(n)[0] == NatToString(n / 10)[0];
    }
  }

  /** Reading a numeral back gives the number. */
  lemma {:induction false} ParseNatToString(n: nat)
    ensures AllDigits(NatToString(n)) && ParseNat(NatToString(n)) == n
    decreases n
  {
    NatToStringCanonical(n);
    if n >= 10 {
      ParseNatToString(n / 10);
      var s := NatToString(n);
      assert s[..|s| - 1] == NatToString(n / 10);
    }
  }

  /** A canonical numeral with a leading digit other than zero has a positive value. */
  lemma {:induction false} ParseNatPositive(s: string)
    requires |s| >= 1 && AllDigits(s) && s[0] != '0'
    ensures ParseNat(s) >= 1
    decreases |s|
  {
    if |s| > 1 {
      ParseNatPositive(s[..|s| - 1]);
    }
  }

  /** Writing the value of a canonical numeral gives the numeral back. */
  lemma {:induction false} NatToStringParse(s: string)
    requires Canonical(s)
    ensures NatToString(ParseNat(s)) == s
    decreases |s|
  {
    if |s| > 1 {
      var p := s[..|s| - 1];
      ParseNatPositive(p);
      NatToStringParse(p);
      var n := ParseNat(s);
      assert n / 10 == ParseNat(p) && n % 10 == DigitValue(s[|s| - 1]);
      assert DigitChar(DigitValue(s[|s| - 1])) == s[|s| - 1];
      assert s == p + [s[|s| - 1]];
    } else {
      assert DigitChar(DigitValue(s[0])) == s[0];
    }
  }

  /** The length of the run of digits `s` starts with. */
  function DigitRun(s: string): (n: nat)
    ensures n <= |s| && AllDigits(s[..n])
    ensures n < |s| ==> !IsDigit(s[n])
  {
    if |s| == 0 || !IsDigit(s[0]) then 0 else 1 + DigitRun(s[1..])
  }

  lemma {:induction false} DigitRunAppend(d: string, t: string)
    requires AllDigits(d)
    requires |t| > 0 && !IsDigit(t[0])
    ensures DigitRun(d + t) == |d|
    decreases |d|
  {
    if |d| > 0 {
      assert (d + t)[1..] == d[1..] + t;
      DigitRunAppend(d[1..], t);
    } else {
      assert d + t == t;
    }
  }

  /** The position of the first `c` in `s`, or `|s|`. */
  function FirstIndexOf(s: string, c: char): (i: nat)
    ensures i <= |s| && c !in s[..i]
    ensures i < |s| ==> s[i] == c
  {
    if |s| == 0 then 0
    else if s[0] == c then 0
    else assert s[..1 + FirstIndexOf(s[1..], c)] == [s[0]] + s[1..][..FirstIndexOf(s[1..], c)]; 1 + FirstIndexOf(s[1..], c)
  }

  /** The `:<hint>` suffix, empty without a hint. */
  function HintSuffix(hint: Option<string>): string {
    if hint.Some? then ":" + hint.value else ""
  }

  /** What goes between `{{c` and `}}`: the number, `::`, the value and the hint suffix. */
  function ClozeBody(c: AnkiCloze): string {
    NatToString(c.index) + "::" + (c.value + HintSuffix(c.hint))
  }

  /** `AnkiCloze.toString`: `{{c<index>::<value>}}`, with `:<hint>` before the braces when a hint is set. */
  function ClozeString(c: AnkiCloze): string {
    "{{c" + ClozeBody(c) + "}}"
  }

  /** Splits the text after `::` at its first `:` into the value and the hint. */
  function SplitHint(rest: string): (string, Option<string>) {
    var i := FirstIndexOf(rest, ':');
    (rest[..i], if i < |rest| then Some(rest[i + 1..]) else None)
  }

  /** Reads a cloze body: a canonical numeral, `::`, then the value and the hint. */
  function ParseBody(body: string): Option<(nat, string, Option<string>)> {
    var n := DigitRun(body);
    if Canonical(body[..n]) && n + 2 <= |body| && body[n..n + 2] == "::" then
      var (v, h) := SplitHint(body[n + 2..]);
      Some((ParseNat(body[..n]), v, h))
    else None
  }

  /**
   * Reads a cloze string back into its number, value and hint. The number must be a
   * canonical numeral; the value runs up to the first `:` after the `::`, and the rest is
   * the hint. The key is not part of the string.
   */
  function ParseCloze(s: string): Option<(nat, string, Option<string>)> {
    if |s| >= 5 && s[..3] == "{{c" && s[|s| - 2..] == "}}" then ParseBody(s[3..|s| - 2]) else None
  }

  lemma HintRoundTrip(v: string, h: Option<string>)
    requires ':' !in v
    ensures SplitHint(v + HintSuffix(h)) == (v, h)
  {
    var rest := v + HintSuffix(h);
    var i := FirstIndexOf(rest, ':');
    assert rest[..|v|] == v;
    if h.Some? {
      assert rest[|v|] == ':';
      assert i == |v|;
      assert rest[..i] == v && rest[i + 1..] == h.value;
    } else {
      assert rest == v;
    }
  }

  /** A body made of a canonical numeral, `::` and a rest reads as the numeral's value and the split rest. */
  lemma ParseBodyOf(digits: string, rest: string)
    requires Canonical(digits)
    ensures ParseBody(digits + "::" + rest) == Some((ParseNat(digits), SplitHint(rest).0, SplitHint(rest).1))
  {
    var body := digits + "::" + rest;
    assert body == digits + ("::" + rest);
    DigitRunAppend(digits, "::" + rest);
    assert body[..|digits|] == digits;
    assert body[|digits|..|digits| + 2] == "::";
    assert body[|digits| + 2..] == rest;
  }

  lemma BodyRoundTrip(c: AnkiCloze)
    requires ':' !in c.value
    ensures ParseBody(ClozeBody(c)) == Some((c.index, c.value, c.hint))
  {
    var digits := NatToString(c.index);
    var rest := c.value + HintSuffix(c.hint);
    NatToStringCanonical(c.index);
    ParseNatToString(c.index);
    ParseBodyOf(digits, rest);
    HintRoundTrip(c.value, c.hint);
  }

  /** The frame `{{c` ... `}}` is what tells a cloze string; inside it is the body. */
  lemma ParseFrame(body: string)
    ensures ParseCloze("{{c" + body + "}}") == ParseBody(body)
  {
    var s := "{{c" + body + "}}";
    assert s[..3] == "{{c" && s[|s| - 2..] == "}}" && s[3..|s| - 2] == body;
  }

  /** A cloze whose value holds no `:` reads back as its number, value and hint. */
  lemma ClozeRoundTrip(c: AnkiCloze)
    requires ':' !in c.value
    ensures ParseCloze(ClozeString(c)) == Some((c.index, c.value, c.hint))
  {
    ParseFrame(ClozeBody(c));
    BodyRoundTrip(c);
  }

  lemma HintExact(rest: string)
    ensures var (v, h) := SplitHint(rest); ':' !in v && v + HintSuffix(h) == rest
  {
    var i := FirstIndexOf(rest, ':');
    if i < |rest| {
      assert rest == rest[..i] + [':'] + rest[i + 1..];
    }
  }

  /** A body that reads is its numeral written back, `::`, and the rest it split. */
  lemma BodyParts(body: string)
    requires ParseBody(body).Some?
    ensures var n := DigitRun(body);
      && body == NatToString(ParseNat(body[..n])) + "::" + body[n + 2..]
      && ParseBody(body).value == (ParseNat(body[..n]), SplitHint(body[n + 2..]).0, SplitHint(body[n + 2..]).1)
  {
    var n := DigitRun(body);
    NatToStringParse(body[..n]);
    assert body == body[..n] + body[n..n + 2] + body[n + 2..];
  }

  lemma BodyExact(body: string, key: string)
    requires ParseBody(body).Some?
    ensures var (i, v, h) := ParseBody(body).value;
      ':' !in v && ClozeBody(AnkiCloze(i, v, key, h)) == body
  {
    var n := DigitRun(body);
    var rest := body[n + 2..];
    BodyParts(body);
    HintExact(rest);
  }

  /** Whatever reads as a cloze is exactly the string of that cloze, whose value holds no `:`. */
  lemma ParseClozeExact(s: string, key: string)
    requires ParseCloze(s).Some?
    ensures var (i, v, h) := ParseCloze(s).value;
      ':' !in v && ClozeString(AnkiCloze(i, v, key, h)) == s
  {
    var body := s[3..|s| - 2];
    assert s == "{{c" + body + "}}";
    ParseFrame(body);
    BodyExact(body, key);
  }

  // The note a sentence yields.

  /** The word entries of the word tokens, in order. */
  function WordsOf(ts: seq<Token>): (ws: seq<Word>)
    ensures |ws| <= |ts|
    ensures forall j :: 0 <= j < |ws| ==> WordToken(ws[j]) in ts
  {
    if |ts| == 0 then []
    else WordsOf(ts[..|ts| - 1]) + (if ts[|ts| - 1].WordToken? then [ts[|ts| - 1].word] else [])
  }

  /** The cloze for the word with number `index`: its first raw text hidden, its key kept, no hint. */
  function ClozeFor(w: Word, index: nat): AnkiCloze {
    AnkiCloze(index, w.raw, w.key, None)
  }

  /** The note's pieces: each word token as its cloze string, each other token as its text. */
  function Pieces(ts: seq<Token>): (ps: seq<string>)
    ensures |ps| == |ts|
  {
    if |ts| == 0 then []
    else
      var init := ts[..|ts| - 1];
      var last := ts[|ts| - 1];
      Pieces(init) + [if last.WordToken? then ClozeString(ClozeFor(last.word, |WordsOf(init)| + 1)) else last.text]
  }

  /** Each word's distances to the other words, as values. */
  function DistancesOf(ws: seq<Word>): (ds: seq<map<string, int>>)
    reads ws
    ensures |ds| == |ws| && forall j :: 0 <= j < |ws| ==> ds[j] == ws[j].distanceByWord
  {
    seq(|ws|, j requires 0 <= j < |ws| reads ws => ws[j].distanceByWord)
  }

  /**
   * `AnkiNote.from_sentence`: walks the tokens, numbering a cloze for each word from 1,
   * collecting the text pieces, and asking each word for its closest words as choices.
   */
  method FromSentence(s: Sentence) returns (note: AnkiNote)
    requires forall i :: 0 <= i < |s.tokens| && s.tokens[i].WordToken? ==> s.tokens[i].word.DistancesValid()
    ensures note.text == Join(Pieces(s.tokens), " ")
    ensures ChoicesFit(WordsOf(s.tokens), DistancesOf(WordsOf(s.tokens)), note.clozes, note.choices)
  {
    var ts := s.tokens;
    var text: seq<string> := [];
    var clozes: seq<AnkiCloze> := [];
    var choices: map<AnkiCloze, seq<string>> := map[];
    var clozeIdx: nat := 1;
    ghost var ds: seq<map<string, int>> := [];
    for i := 0 to |ts|
      invariant NoteSoFar(ts[..i], ds, text, clozes, choices, clozeIdx)
    {
      text, clozes, choices, clozeIdx, ds := AddToken(ts, i, ds, text, clozes, choices, clozeIdx);
    }
    assert ts[..|ts|] == ts;
    assert ds == DistancesOf(WordsOf(ts));
    note := AnkiNote(Join(text, " "), clozes, choices);
  }

  /**
   * What the loop of `from_sentence` has built after the tokens `ts`; `ds` holds the
   * distances of its words.
   */
  predicate NoteSoFar(ts: seq<Token>, ds: seq<map<string, int>>, text: seq<string>, clozes: seq<AnkiCloze>,
                      choices: map<AnkiCloze, seq<string>>, clozeIdx: nat)
    reads WordsOf(ts)
  {
    var ws := WordsOf(ts);
    && text == Pieces(ts)
    && clozeIdx == |ws| + 1
    && |ds| == |ws|
    && (forall j :: 0 <= j < |ws| ==> ds[j] == ws[j].distanceByWord)
    && ChoicesFit(ws, ds, clozes, choices)
  }

  /**
   * One pass of the loop of `from_sentence`: a word token becomes the next cloze, its
   * string and its choices; any other token goes into the text as it is.
   */
  method AddToken(ts: seq<Token>, i: nat, ghost ds: seq<map<string, int>>, text: seq<string>, clozes: seq<AnkiCloze>,
                  choices: map<AnkiCloze, seq<string>>, clozeIdx: nat)
    returns (text': seq<string>, clozes': seq<AnkiCloze>, choices': map<AnkiCloze, seq<string>>, clozeIdx': nat,
             ghost ds': seq<map<string, int>>)
    requires i < |ts| && (ts[i].WordToken? ==> ts[i].word.DistancesValid())
    requires NoteSoFar(ts[..i], ds, text, clozes, choices, clozeIdx)
    ensures NoteSoFar(ts[..i + 1], ds', text', clozes', choices', clozeIdx')
  {
    NoteStep(ts, i, text);
    var token := ts[i];
    if token.WordToken? {
      ghost var ws := WordsOf(ts[..i]);
      var closest := token.word.GetClosestWords(ChoicesMax);
      ChoicesStep(ws, ds, clozes, choices, token.word, token.word.distanceByWord, closest);
      forall j | 0 <= j < |ws| ensures ds[j] == ws[j].distanceByWord {
        assert ws[j].distanceByWord == old(ws[j].distanceByWord);
      }
      var cloze := ClozeFor(token.word, clozeIdx);
      text' := text + [ClozeString(cloze)];
      clozes' := clozes + [cloze];
      clozeIdx' := clozeIdx + 1;
      choices' := choices[cloze := closest];
      ds' := ds + [token.word.distanceByWord];
    } else {
      text' := text + [token.text];
      clozes', choices', clozeIdx', ds' := clozes, choices, clozeIdx, ds;
    }
  }

  /**
   * The clozes are numbered from 1 in word order, each word's cloze keeps its raw text and
   * key, and each cloze's choices are the word's closest words by the distances in `ds`.
   */
  predicate ChoicesFit(ws: seq<Word>, ds: seq<map<string, int>>, clozes: seq<AnkiCloze>, choices: map<AnkiCloze, seq<string>>) {
    && |clozes| == |ws| == |ds|
    && choices.Keys == Elements(clozes)
    && (forall j :: 0 <= j < |clozes| ==> clozes[j] == ClozeFor(ws[j], j + 1))
    && (forall j :: 0 <= j < |clozes| ==> Closest(ds[j], ws[j].key, ChoicesMax, choices[clozes[j]]))
  }

  /** A word's cloze, numbered next, and its closest words extend the clozes and choices so far. */
  lemma ChoicesStep(ws: seq<Word>, ds: seq<map<string, int>>, clozes: seq<AnkiCloze>, choices: map<AnkiCloze, seq<string>>,
                    w: Word, d: map<string, int>, closest: seq<string>)
    requires ChoicesFit(ws, ds, clozes, choices)
    requires Closest(d, w.key, ChoicesMax, closest)
    ensures ChoicesFit(ws + [w], ds + [d], clozes + [ClozeFor(w, |clozes| + 1)], choices[ClozeFor(w, |clozes| + 1) := closest])
  {
    var cloze := ClozeFor(w, |clozes| + 1);
    assert forall j :: 0 <= j < |clozes| ==> clozes[j].index == j + 1;
    assert cloze !in Elements(clozes);
  }

  /** One more token adds its piece, and its word when it is one. */
  lemma NoteStep(ts: seq<Token>, i: nat, text: seq<string>)
    requires i < |ts| && text == Pieces(ts[..i])
    ensures ts[i].WordToken? ==> WordsOf(ts[..i + 1]) == WordsOf(ts[..i]) + [ts[i].word]
    ensures ts[i].WordToken? ==> Pieces(ts[..i + 1]) == text + [ClozeString(ClozeFor(ts[i].word, |WordsOf(ts[..i])| + 1))]
    ensures ts[i].StringToken? ==> WordsOf(ts[..i + 1]) == WordsOf(ts[..i])
    ensures ts[i].StringToken? ==> Pieces(ts[..i + 1]) == text + [ts[i].text]
  {
    assert ts[..i + 1][..i] == ts[..i];
  }

  // What a note says about its sentence.

  /** The number of word tokens before position `i`. */
  function WordsBefore(ts: seq<Token>, i: nat): nat
    requires i <= |ts|
  {
    |WordsOf(ts[..i])|
  }

  /** Each piece stands for the token at its position; a word's cloze is numbered by the words before it. */
  lemma {:induction false} PieceAt(ts: seq<Token>, i: nat)
    requires i < |ts|
    ensures Pieces(ts)[i] == if ts[i].WordToken? then ClozeString(ClozeFor(ts[i].word, WordsBefore(ts, i) + 1)) else ts[i].text
    decreases |ts|
  {
    var init := ts[..|ts| - 1];
    if i < |init| {
      PieceAt(init, i);
      assert init[..i] == ts[..i];
    } else {
      assert init == ts[..i];
    }
  }

  /** The cloze numbers count the word tokens: the word at position `i` is word number `WordsBefore + 1`. */
  lemma {:induction false} WordAt(ts: seq<Token>, i: nat)
    requires i < |ts| && ts[i].WordToken?
    ensures WordsBefore(ts, i) < |WordsOf(ts)| && WordsOf(ts)[WordsBefore(ts, i)] == ts[i].word
    decreases |ts|
  {
    var init := ts[..|ts| - 1];
    if i < |init| {
      WordAt(init, i);
      assert init[..i] == ts[..i];
    } else {
      assert init == ts[..i];
    }
  }

  /**
   * With clean tokens and no hints, every piece is clean, so splitting the note's text on
   * whitespace gives the pieces back, one per token.
   */
  lemma NoteTextSplits(ts: seq<Token>)
    requires |ts| >= 1 && CleanTokens(ts)
    ensures SplitWs(Join(Pieces(ts), " ")) == Pieces(ts)
  {
    var ps := Pieces(ts);
    forall k | 0 <= k < |ps| ensures IsCleanToken(ps[k]) {
      PieceAt(ts, k);
      assert IsCleanToken(Render(ts[k]));
      if ts[k].WordToken? {
        ClozeClean(ClozeFor(ts[k].word, WordsBefore(ts, k) + 1));
      }
    }
    SplitWsJoin(ps);
  }

  lemma CleanConcat(a: string, b: string)
    requires IsCleanToken(a) && IsCleanToken(b)
    ensures IsCleanToken(a + b)
  {
    forall j | 0 <= j < |a + b| ensures !IsWhitespace((a + b)[j]) {
      if j >= |a| {
        assert (a + b)[j] == b[j - |a|];
      }
    }
  }

  /** The cloze of a clean value, without a hint, is itself a clean token. */
  lemma ClozeClean(c: AnkiCloze)
    requires IsCleanToken(c.value) && c.hint.None?
    ensures IsCleanToken(ClozeString(c))
  {
    var digits := NatToString(c.index);
    NatToStringCanonical(c.index);
    assert ClozeBody(c) == digits + "::" + c.value;
    CleanConcat(digits, "::");
    CleanConcat(digits + "::", c.value);
    CleanConcat("{{c", ClozeBody(c));
    CleanConcat("{{c" + ClozeBody(c), "}}");
  }

  /**
   * The answer behind a piece of note text: the value of a cloze, or the piece itself
   * when it is not a cloze.
   */
  function Answer(piece: string): string {
    match ParseCloze(piece)
    case Some((_, v, _)) => v
    case None => piece
  }

  /**
   * Revealing every cloze of a note restores the sentence's own text: when no word's
   * first raw text holds a `:` and no plain token reads as a cloze, the answers behind
   * the pieces are the tokens as the sentence prints them.
   */
  lemma NoteAnswers(ts: seq<Token>)
    requires forall i :: 0 <= i < |ts| && ts[i].WordToken? ==> ':' !in ts[i].word.raw
    requires forall i :: 0 <= i < |ts| && ts[i].StringToken? ==> ParseCloze(ts[i].text).None?
    ensures forall i :: 0 <= i < |ts| ==> Answer(Pieces(ts)[i]) == Render(ts[i])
  {
    forall i | 0 <= i < |ts| ensures Answer(Pieces(ts)[i]) == Render(ts[i]) {
      PieceAt(ts, i);
      if ts[i].WordToken? {
        ClozeRoundTrip(ClozeFor(ts[i].word, WordsBefore(ts, i) + 1));
      }
    }
  }
}
