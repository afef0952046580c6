/**
 * The document segmenter of the quiz card generator, as a pure reference fold.
 *
 * The generator's constructor walks the text line by line and token by token. Each
 * non-empty token becomes either a word (interned by its key) or a plain string, is
 * appended to the current sentence, and may end that sentence. `Step` is one token of
 * that walk and `Run` the whole walk; the imperative constructor in module Generator
 * is proved to follow it. The lemmas at the end state what the segmentation promises.
 */
module Segmentation {
  import opened Wrappers
  import opened Text

  /** One entry of the constructor's exclusion list: a literal word or a pattern. */
  datatype Exclude = Literal(text: string) | Pattern(matches: string -> bool)

  /**
   * The string operations the tokenizer relies on without defining them here:
   * removing the characters of the word-exclusion pattern, and lower-casing.
   */
  datatype TextOps = TextOps(strip: string -> string, lower: string -> string)

  /**
   * Constructor parameters that shape the segmentation. `wordMin` is `None` when the
   * caller passes no minimum: the constructor assigns the argument over the default,
   * so a missing minimum never defers a sentence.
   */
  datatype Config = Config(ops: TextOps, excludes: seq<Exclude>, wordMin: Option<int>, tokenMax: Option<int>)

  /** A non-empty token with its line number and its position in the line's split. */
  datatype RawToken = RawToken(raw: string, line: nat, index: nat)

  /** A sentence token: a word (by key, with the raw text seen here) or a plain string. */
  datatype Piece = WordPiece(key: string, raw: string) | PlainPiece(raw: string)

  /** Where a word occurred: the raw text, line, token index on the line, sentence and token in sentence. */
  datatype Location = Location(raw: string, line: nat, wordOnLine: nat, sentence: nat, tokenInSentence: nat)

  /** What the vocabulary holds for one key: the first raw text and every location. */
  datatype WordEntry = WordEntry(raw: string, locations: seq<Location>)

  /**
   * The walk's state: the sentences already committed, the open sentence, the keys in
   * order of first appearance and the vocabulary.
   */
  datatype SegState = SegState(closed: seq<seq<Piece>>, current: seq<Piece>, order: seq<string>, entries: map<string, WordEntry>)

  // ---------------------------------------------------------------------------------
  // Tokens of a document

  /** The non-empty pieces among the first `n` pieces of line number `line`, with their indices. */
  function PiecesUpTo(pieces: seq<string>, line: nat, n: nat): (ts: seq<RawToken>)
    requires n <= |pieces|
    ensures |ts| <= n
  {
    if n == 0 then []
    else PiecesUpTo(pieces, line, n - 1) + if |pieces[n - 1]| > 0 then [RawToken(pieces[n - 1], line, n - 1)] else []
  }

  /** The tokens of the first `n` lines, in line order. */
  function LinesUpTo(lines: seq<string>, n: nat): seq<RawToken>
    requires n <= |lines|
  {
    if n == 0 then []
    else
      var pieces := SplitWs(lines[n - 1]);
      LinesUpTo(lines, n - 1) + PiecesUpTo(pieces, n - 1, |pieces|)
  }

  /** Pieces free of whitespace give clean tokens: each kept piece is non-empty. */
  lemma {:induction false} PiecesUpToClean(pieces: seq<string>, line: nat, n: nat)
    requires n <= |pieces|
    requires forall k :: 0 <= k < |pieces| ==> forall j :: 0 <= j < |pieces[k]| ==> !IsWhitespace(pieces[k][j])
    ensures forall k :: 0 <= k < |PiecesUpTo(pieces, line, n)| ==> IsCleanToken(PiecesUpTo(pieces, line, n)[k].raw)
  {
    if n > 0 {
      PiecesUpToClean(pieces, line, n - 1);
    }
  }

  /** Every token of the first `n` lines is clean. */
  lemma {:induction false} LinesUpToClean(lines: seq<string>, n: nat)
    requires n <= |lines|
    ensures forall k :: 0 <= k < |LinesUpTo(lines, n)| ==> IsCleanToken(LinesUpTo(lines, n)[k].raw)
  {
    if n > 0 {
      var pieces := SplitWs(lines[n - 1]);
      LinesUpToClean(lines, n - 1);
      SplitWsClean(lines[n - 1]);
      PiecesUpToClean(pieces, n - 1, |pieces|);
    }
  }

  /** The document's non-empty whitespace-separated tokens, line by line. */
  function DocumentTokens(source: string): (ts: seq<RawToken>)
    ensures forall k :: 0 <= k < |ts| ==> IsCleanToken(ts[k].raw)
  {
    var lines := SplitLines(source);
    LinesUpToClean(lines, |lines|);
    LinesUpTo(lines, |lines|)
  }

  // ---------------------------------------------------------------------------------
  // Classifying a token

  /** The key of a token: excluded characters removed, then lower-cased. */
  function Key(ops: TextOps, raw: string): string {
    ops.lower(ops.strip(raw))
  }

  /** The literal exclusions, lower-cased as the constructor stores them. */
  function LiteralKeys(cfg: Config): set<string> {
    set i | 0 <= i < |cfg.excludes| && cfg.excludes[i].Literal? :: cfg.ops.lower(cfg.excludes[i].text)
  }

  /** The combined exclusion pattern (an alternation of every pattern) matches the raw token. */
  predicate PatternHit(cfg: Config, raw: string) {
    exists i :: 0 <= i < |cfg.excludes| && cfg.excludes[i].Pattern? && cfg.excludes[i].matches(raw)
  }

  /** A token is a word when its key is non-empty and no exclusion applies. */
  predicate IsWord(cfg: Config, raw: string) {
    var key := Key(cfg.ops, raw);
    |key| > 0 && key !in LiteralKeys(cfg) && !PatternHit(cfg, raw)
  }

  function PieceOf(cfg: Config, t: RawToken): (p: Piece)
    ensures p.raw == t.raw
    ensures p.WordPiece? <==> IsWord(cfg, t.raw)
    ensures p.WordPiece? ==> p.key == Key(cfg.ops, t.raw) && |p.key| > 0
  {
    if IsWord(cfg, t.raw) then WordPiece(Key(cfg.ops, t.raw), t.raw) else PlainPiece(t.raw)
  }

  // ---------------------------------------------------------------------------------
  // Sentences

  /** The distinct word keys of a sentence (the size of the sentence's word map). */
  function WordKeys(s: seq<Piece>): set<string> {
    set i | 0 <= i < |s| && s[i].WordPiece? :: s[i].key
  }

  /** The sentence-ending test after its `p`-th token: token limit reached or terminal punctuation. */
  predicate EndsAt(cfg: Config, s: seq<Piece>, p: nat)
    requires 0 < p <= |s|
  {
    (cfg.tokenMax.Some? && p >= cfg.tokenMax.value) || HasTerminal(s[p - 1].raw)
  }

  /** A sentence with fewer distinct words than the minimum is not committed yet. */
  predicate Defers(cfg: Config, s: seq<Piece>) {
    cfg.wordMin.Some? && |WordKeys(s)| < cfg.wordMin.value
  }

  /** Records an occurrence of `key` in the vocabulary. */
  function Register(st: SegState, key: string, loc: Location): (r: SegState)
    ensures r.closed == st.closed && r.current == st.current
    ensures r.entries.Keys == st.entries.Keys + {key}
    ensures key in st.entries ==> r.order == st.order
    ensures key !in st.entries ==> r.order == st.order + [key]
    ensures r.entries[key].locations == (if key in st.entries then st.entries[key].locations else []) + [loc]
  {
    if key in st.entries then
      st.(entries := st.entries[key := st.entries[key].(locations := st.entries[key].locations + [loc])])
    else
      st.(order := st.order + [key], entries := st.entries[key := WordEntry(loc.raw, [loc])])
  }

  /** A token joins the open sentence; a word token is also recorded in the vocabulary. */
  function Appended(cfg: Config, st: SegState, t: RawToken): (r: SegState)
    ensures r.closed == st.closed && r.current == st.current + [PieceOf(cfg, t)]
  {
    var p := PieceOf(cfg, t);
    var st1 := if p.WordPiece? then Register(st, p.key, Location(t.raw, t.line, t.index, |st.closed|, |st.current|)) else st;
    st1.(current := st.current + [p])
  }

  /** A word token: the vocabulary records it at the open sentence's next position. */
  lemma AppendedWord(cfg: Config, st: SegState, t: RawToken, key: string)
    requires PieceOf(cfg, t) == WordPiece(key, t.raw)
    ensures Appended(cfg, st, t)
      == Register(st, key, Location(t.raw, t.line, t.index, |st.closed|, |st.current|)).(current := st.current + [WordPiece(key, t.raw)])
  {
  }

  /** A plain token only joins the open sentence. */
  lemma AppendedPlain(cfg: Config, st: SegState, t: RawToken)
    requires PieceOf(cfg, t) == PlainPiece(t.raw)
    ensures Appended(cfg, st, t) == st.(current := st.current + [PlainPiece(t.raw)])
  {
  }

  /** The open sentence is committed and a new, empty one opened. */
  function Commit(st: SegState): SegState {
    st.(closed := st.closed + [st.current], current := [])
  }

  /** One token of the constructor's walk (its body for one token, `next_sentence` included). */
  function Step(cfg: Config, st: SegState, t: RawToken): SegState {
    var st1 := Appended(cfg, st, t);
    if EndsAt(cfg, st1.current, |st1.current|) && !Defers(cfg, st1.current) then Commit(st1) else st1
  }

  function Initial(): SegState {
    SegState([], [], [], map[])
  }

  /** The walk over a sequence of tokens. */
  function Run(cfg: Config, toks: seq<RawToken>): SegState
    decreases |toks|
  {
    if |toks| == 0 then Initial() else Step(cfg, Run(cfg, toks[..|toks| - 1]), toks[|toks| - 1])
  }

  /** The sentences the generator keeps: the committed ones, then the open one unless it is empty. */
  function Sentences(st: SegState): seq<seq<Piece>> {
    st.closed + if |st.current| > 0 then [st.current] else []
  }

  /** The segmentation of a whole document. */
  function Segment(cfg: Config, source: string): seq<seq<Piece>> {
    Sentences(Run(cfg, DocumentTokens(source)))
  }

  // ---------------------------------------------------------------------------------
  // Views used by the invariants

  function Flatten(ss: seq<seq<Piece>>): seq<Piece> {
    if |ss| == 0 then [] else Flatten(ss[..|ss| - 1]) + ss[|ss| - 1]
  }

  function AllPieces(st: SegState): seq<Piece> {
    Flatten(st.closed) + st.current
  }

  function PieceRaws(ps: seq<Piece>): (r: seq<string>)
    ensures |r| == |ps| && forall i :: 0 <= i < |ps| ==> r[i] == ps[i].raw
  {
    seq(|ps|, i requires 0 <= i < |ps| => ps[i].raw)
  }

  function TokenRaws(ts: seq<RawToken>): (r: seq<string>)
    ensures |r| == |ts| && forall i :: 0 <= i < |ts| ==> r[i] == ts[i].raw
  {
    seq(|ts|, i requires 0 <= i < |ts| => ts[i].raw)
  }

  /** Number of word tokens with key `k`. */
  function CountKey(k: string, ps: seq<Piece>): nat {
    if |ps| == 0 then 0
    else CountKey(k, ps[..|ps| - 1]) + if ps[|ps| - 1].WordPiece? && ps[|ps| - 1].key == k then 1 else 0
  }

  /** The word keys in order of first appearance. */
  function FirstKeys(ps: seq<Piece>): seq<string> {
    if |ps| == 0 then []
    else
      var r := FirstKeys(ps[..|ps| - 1]);
      var q := ps[|ps| - 1];
      if q.WordPiece? && q.key !in r then r + [q.key] else r
  }

  /** Sentence `i` of the walk so far, counting the open sentence as number `|closed|`. */
  function Slot(st: SegState, i: nat): seq<Piece>
    requires i <= |st.closed|
  {
    if i < |st.closed| then st.closed[i] else st.current
  }

  predicate Sealed(cfg: Config, s: seq<Piece>) {
    |s| > 0 && EndsAt(cfg, s, |s|) && !Defers(cfg, s)
  }

  /** Every earlier point where the sentence could have ended was deferred. */
  predicate DeferredBefore(cfg: Config, s: seq<Piece>, upto: nat) {
    forall p :: 0 < p < upto && p <= |s| && EndsAt(cfg, s, p) ==> Defers(cfg, s[..p])
  }

  predicate Shape(cfg: Config, st: SegState) {
    (forall i :: 0 <= i < |st.closed| ==> Sealed(cfg, st.closed[i]) && DeferredBefore(cfg, st.closed[i], |st.closed[i]|))
    && DeferredBefore(cfg, st.current, |st.current| + 1)
  }

  predicate PointsAt(st: SegState, k: string, l: Location) {
    l.sentence <= |st.closed| && l.tokenInSentence < |Slot(st, l.sentence)|
    && Slot(st, l.sentence)[l.tokenInSentence] == WordPiece(k, l.raw)
  }

  predicate Before(l: Location, l': Location) {
    l.sentence < l'.sentence || (l.sentence == l'.sentence && l.tokenInSentence < l'.tokenInSentence)
  }

  /** Locations in strictly increasing document order. */
  predicate InOrder(locs: seq<Location>) {
    forall m, m' :: 0 <= m < m' < |locs| ==> Before(locs[m], locs[m'])
  }

  predicate HasLocation(locs: seq<Location>, i: nat, j: nat, raw: string) {
    exists m :: 0 <= m < |locs| && locs[m].sentence == i && locs[m].tokenInSentence == j && locs[m].raw == raw
  }

  /** Every word has a location, and its raw text is the one seen first. */
  predicate FirstRaw(st: SegState) {
    forall k :: k in st.entries ==>
      |st.entries[k].locations| > 0 && st.entries[k].raw == st.entries[k].locations[0].raw
  }

  /** Every location holds that word, with that raw text. */
  predicate LocationsPoint(st: SegState) {
    forall k, m :: k in st.entries && 0 <= m < |st.entries[k].locations| ==> PointsAt(st, k, st.entries[k].locations[m])
  }

  /** A word's locations are in document order. */
  predicate LocationsOrdered(st: SegState) {
    forall k, m, m' :: k in st.entries && 0 <= m < m' < |st.entries[k].locations| ==>
      Before(st.entries[k].locations[m], st.entries[k].locations[m'])
  }

  /** Every word token has a location. */
  predicate TokensLocated(st: SegState) {
    forall i, j :: 0 <= i <= |st.closed| && 0 <= j < |Slot(st, i)| && Slot(st, i)[j].WordPiece? ==>
      Slot(st, i)[j].key in st.entries && HasLocation(st.entries[Slot(st, i)[j].key].locations, i, j, Slot(st, i)[j].raw)
  }

  /** The vocabulary agrees with the sentences, in both directions. */
  predicate Indexed(st: SegState) {
    FirstRaw(st) && LocationsPoint(st) && LocationsOrdered(st) && TokensLocated(st)
  }

  /** Frequencies and first-appearance order agree with the token stream. */
  ghost predicate Counted(st: SegState) {
    (forall k :: k in st.entries ==> |st.entries[k].locations| == CountKey(k, AllPieces(st)))
    && (forall k :: k !in st.entries ==> CountKey(k, AllPieces(st)) == 0)
    && st.order == FirstKeys(AllPieces(st))
    && (forall k :: k in st.entries <==> k in st.order)
  }

  // ---------------------------------------------------------------------------------
  // One step preserves the invariants

  lemma StepPieces(cfg: Config, st: SegState, t: RawToken)
    ensures AllPieces(Step(cfg, st, t)) == AllPieces(st) + [PieceOf(cfg, t)]
  {
    var c := st.current + [PieceOf(cfg, t)];
    var st' := Step(cfg, st, t);
    if st'.closed == st.closed + [c] {
      assert (st.closed + [c])[..|st.closed|] == st.closed;
    }
  }

  lemma StepShape(cfg: Config, st: SegState, t: RawToken)
    requires Shape(cfg, st)
    ensures Shape(cfg, Step(cfg, st, t))
  {
    var c := st.current + [PieceOf(cfg, t)];
    forall p | 0 < p < |c| && EndsAt(cfg, c, p)
      ensures Defers(cfg, c[..p])
    {
      assert c[..p] == st.current[..p];
      assert c[p - 1] == st.current[p - 1];
      assert EndsAt(cfg, st.current, p);
    }
    assert c[..|c|] == c;
    assert DeferredBefore(cfg, c, |c|);
  }

  /** A step appends a word's key to the first-appearance order exactly when the key is new. */
  lemma StepOrder(cfg: Config, st: SegState, t: RawToken)
    ensures var p := PieceOf(cfg, t);
      Step(cfg, st, t).order == if p.WordPiece? && p.key !in st.entries then st.order + [p.key] else st.order
  {
  }

  lemma StepCounted(cfg: Config, st: SegState, t: RawToken)
    requires Counted(st)
    ensures Counted(Step(cfg, st, t))
  {
    var st' := Step(cfg, st, t);
    var p := PieceOf(cfg, t);
    var all := AllPieces(st);
    StepPieces(cfg, st, t);
    assert (all + [p])[..|all|] == all;
    forall k
      ensures (k in st'.entries ==> |st'.entries[k].locations| == CountKey(k, all + [p]))
        && (k !in st'.entries ==> CountKey(k, all + [p]) == 0)
        && (k in st'.entries <==> k in st'.order)
    {
      StepEntry(cfg, st, t, k);
      StepOrder(cfg, st, t);
    }
    StepOrder(cfg, st, t);
    assert st'.order == FirstKeys(all + [p]);
  }

  /** A step keeps every token already placed. */
  lemma StepSlot(cfg: Config, st: SegState, t: RawToken, i: nat, j: nat)
    requires i <= |st.closed| && j < |Slot(st, i)|
    ensures var st' := Step(cfg, st, t);
      i <= |st'.closed| && j < |Slot(st', i)| && Slot(st', i)[j] == Slot(st, i)[j]
  {
  }

  /** A step places its token right after the open sentence's last one. */
  lemma StepSlotNew(cfg: Config, st: SegState, t: RawToken)
    ensures var st' := Step(cfg, st, t);
      |st.closed| <= |st'.closed| && |st.current| < |Slot(st', |st.closed|)|
      && Slot(st', |st.closed|)[|st.current|] == PieceOf(cfg, t)
  {
  }

  /** After a step, a position is either an old one or the new token's. */
  lemma StepSlotOrigin(cfg: Config, st: SegState, t: RawToken, i: nat, j: nat)
    requires var st' := Step(cfg, st, t); i <= |st'.closed| && j < |Slot(st', i)|
    ensures i < |st.closed| || (i == |st.closed| && j <= |st.current|)
  {
  }

  /** How a step changes the record of one key. */
  lemma StepEntry(cfg: Config, st: SegState, t: RawToken, k: string)
    ensures var st' := Step(cfg, st, t); var p := PieceOf(cfg, t);
      var added := p.WordPiece? && p.key == k;
      (k in st'.entries <==> k in st.entries || added)
      && (k in st'.entries ==>
            st'.entries[k].raw == (if k in st.entries then st.entries[k].raw else t.raw)
            && st'.entries[k].locations ==
                 (if k in st.entries then st.entries[k].locations else [])
                 + (if added then [Location(t.raw, t.line, t.index, |st.closed|, |st.current|)] else []))
  {
  }

  lemma StepFirstRaw(cfg: Config, st: SegState, t: RawToken)
    requires FirstRaw(st)
    ensures FirstRaw(Step(cfg, st, t))
  {
    var st' := Step(cfg, st, t);
    forall k | k in st'.entries
      ensures |st'.entries[k].locations| > 0 && st'.entries[k].raw == st'.entries[k].locations[0].raw
    {
      StepEntry(cfg, st, t, k);
    }
  }

  lemma StepLocationsPoint(cfg: Config, st: SegState, t: RawToken)
    requires LocationsPoint(st)
    ensures LocationsPoint(Step(cfg, st, t))
  {
    var st' := Step(cfg, st, t);
    StepSlotNew(cfg, st, t);
    forall k, m | k in st'.entries && 0 <= m < |st'.entries[k].locations|
      ensures PointsAt(st', k, st'.entries[k].locations[m])
    {
      StepEntry(cfg, st, t, k);
      if k in st.entries && m < |st.entries[k].locations| {
        var l := st.entries[k].locations[m];
        assert st'.entries[k].locations[m] == l;
        assert PointsAt(st, k, l);
        StepSlot(cfg, st, t, l.sentence, l.tokenInSentence);
      }
    }
  }

  lemma StepLocationsOrdered(cfg: Config, st: SegState, t: RawToken)
    requires LocationsPoint(st) && LocationsOrdered(st)
    ensures LocationsOrdered(Step(cfg, st, t))
  {
    var st' := Step(cfg, st, t);
    forall k, m, m' | k in st'.entries && 0 <= m < m' < |st'.entries[k].locations|
      ensures Before(st'.entries[k].locations[m], st'.entries[k].locations[m'])
    {
      StepEntry(cfg, st, t, k);
      if k in st.entries && m < |st.entries[k].locations| {
        assert st'.entries[k].locations[m] == st.entries[k].locations[m];
        assert PointsAt(st, k, st.entries[k].locations[m]);
        if m' < |st.entries[k].locations| {
          assert st'.entries[k].locations[m'] == st.entries[k].locations[m'];
        }
      }
    }
  }

  lemma StepTokensLocated(cfg: Config, st: SegState, t: RawToken)
    requires TokensLocated(st)
    ensures TokensLocated(Step(cfg, st, t))
  {
    var st' := Step(cfg, st, t);
    var p := PieceOf(cfg, t);
    StepSlotNew(cfg, st, t);
    forall i, j | 0 <= i <= |st'.closed| && 0 <= j < |Slot(st', i)| && Slot(st', i)[j].WordPiece?
      ensures Slot(st', i)[j].key in st'.entries
      ensures HasLocation(st'.entries[Slot(st', i)[j].key].locations, i, j, Slot(st', i)[j].raw)
    {
      var q := Slot(st', i)[j];
      StepEntry(cfg, st, t, q.key);
      StepSlotOrigin(cfg, st, t, i, j);
      if i == |st.closed| && j == |st.current| {
        assert q == p;
        var locs' := st'.entries[q.key].locations;
        assert locs'[|locs'| - 1].sentence == i && locs'[|locs'| - 1].tokenInSentence == j;
      } else {
        StepSlot(cfg, st, t, i, j);
        assert Slot(st, i)[j] == q;
        var locs := st.entries[q.key].locations;
        var locs' := st'.entries[q.key].locations;
        var m :| 0 <= m < |locs| && locs[m].sentence == i && locs[m].tokenInSentence == j && locs[m].raw == q.raw;
        assert locs'[m] == locs[m];
      }
    }
  }

  lemma StepIndexed(cfg: Config, st: SegState, t: RawToken)
    requires Indexed(st)
    ensures Indexed(Step(cfg, st, t))
  {
    StepFirstRaw(cfg, st, t);
    StepLocationsPoint(cfg, st, t);
    StepLocationsOrdered(cfg, st, t);
    StepTokensLocated(cfg, st, t);
  }

  lemma StepCovers(cfg: Config, st: SegState, toks: seq<RawToken>, t: RawToken)
    requires PieceRaws(AllPieces(st)) == TokenRaws(toks)
    ensures PieceRaws(AllPieces(Step(cfg, st, t))) == TokenRaws(toks + [t])
  {
    StepPieces(cfg, st, t);
  }

  /** The invariants hold after any number of tokens. */
  lemma {:induction false} RunInvariant(cfg: Config, toks: seq<RawToken>)
    ensures Shape(cfg, Run(cfg, toks)) && Indexed(Run(cfg, toks)) && Counted(Run(cfg, toks))
    ensures PieceRaws(AllPieces(Run(cfg, toks))) == TokenRaws(toks)
    decreases |toks|
  {
    if |toks| > 0 {
      var prev := toks[..|toks| - 1];
      var t := toks[|toks| - 1];
      assert prev + [t] == toks;
      RunInvariant(cfg, prev);
      var st := Run(cfg, prev);
      assert Run(cfg, toks) == Step(cfg, st, t);
      StepShape(cfg, st, t);
      StepIndexed(cfg, st, t);
      StepCounted(cfg, st, t);
      StepCovers(cfg, st, prev, t);
    }
  }

  /** Every word of the vocabulary has a non-empty key. */
  lemma {:induction false} RunKeysNonEmpty(cfg: Config, toks: seq<RawToken>)
    ensures forall k :: k in Run(cfg, toks).entries ==> |k| > 0
    decreases |toks|
  {
    if |toks| > 0 {
      var prev := toks[..|toks| - 1];
      var t := toks[|toks| - 1];
      RunKeysNonEmpty(cfg, prev);
      var st := Run(cfg, prev);
      assert Run(cfg, toks) == Step(cfg, st, t);
      forall k | k in Step(cfg, st, t).entries ensures |k| > 0 {
        StepEntry(cfg, st, t, k);
      }
    }
  }

  // ---------------------------------------------------------------------------------
  // What the segmentation promises

  lemma SentencesFlatten(st: SegState)
    ensures Flatten(Sentences(st)) == AllPieces(st)
  {
    if |st.current| > 0 {
      assert (st.closed + [st.current])[..|st.closed|] == st.closed;
    } else {
      assert st.closed + [] == st.closed;
    }
  }

  /** The retained sentences, read in order, give back every token of the document. */
  lemma SegmentCovers(cfg: Config, source: string)
    ensures PieceRaws(Flatten(Segment(cfg, source))) == TokenRaws(DocumentTokens(source))
  {
    RunInvariant(cfg, DocumentTokens(source));
    SentencesFlatten(Run(cfg, DocumentTokens(source)));
  }

  /**
   * No retained sentence is empty; every sentence but the last ended at a terminal
   * token or the token limit with enough distinct words; and no sentence passed an
   * earlier ending point unless it had too few distinct words there.
   */
  lemma SegmentShape(cfg: Config, source: string)
    ensures forall i :: 0 <= i < |Segment(cfg, source)| ==> |Segment(cfg, source)[i]| > 0
    ensures forall i :: 0 <= i < |Segment(cfg, source)| - 1 ==> Sealed(cfg, Segment(cfg, source)[i])
    ensures forall i :: 0 <= i < |Segment(cfg, source)| ==>
      DeferredBefore(cfg, Segment(cfg, source)[i], |Segment(cfg, source)[i]|)
  {
    var st := Run(cfg, DocumentTokens(source));
    RunInvariant(cfg, DocumentTokens(source));
    var ss := Sentences(st);
    forall i | 0 <= i < |ss|
      ensures |ss[i]| > 0 && DeferredBefore(cfg, ss[i], |ss[i]|)
      ensures i < |ss| - 1 ==> Sealed(cfg, ss[i])
    {
      if i == |st.closed| {
        assert ss[i] == st.current;
      }
    }
  }

  /**
   * Each recorded location names a sentence and token position holding that word with
   * that raw text, locations are in document order, and every word token has one.
   */
  lemma {:induction false} RunLocations(cfg: Config, toks: seq<RawToken>, k: string, m: nat)
    requires k in Run(cfg, toks).entries && m < |Run(cfg, toks).entries[k].locations|
    ensures var st := Run(cfg, toks); var l := st.entries[k].locations[m];
      l.sentence < |Sentences(st)| && l.tokenInSentence < |Sentences(st)[l.sentence]|
      && Sentences(st)[l.sentence][l.tokenInSentence] == WordPiece(k, l.raw)
  {
    RunInvariant(cfg, toks);
    var st := Run(cfg, toks);
    var l := st.entries[k].locations[m];
    assert PointsAt(st, k, l);
    if l.sentence == |st.closed| {
      assert Sentences(st)[l.sentence] == st.current;
    }
  }

  /** A word's frequency (its number of locations) is its number of occurrences. */
  lemma RunFrequency(cfg: Config, toks: seq<RawToken>, k: string)
    ensures var st := Run(cfg, toks);
      (if k in st.entries then |st.entries[k].locations| else 0) == CountKey(k, Flatten(Sentences(st)))
  {
    RunInvariant(cfg, toks);
    SentencesFlatten(Run(cfg, toks));
  }

  /** A word's locations by sentence and token position; a later location replaces an earlier one at the same position. */
  function LocationIndex(locs: seq<Location>): map<(nat, nat), Location> {
    if |locs| == 0 then map[]
    else
      var l := locs[|locs| - 1];
      LocationIndex(locs[..|locs| - 1])[(l.sentence, l.tokenInSentence) := l]
  }

  /** With locations in document order, the index finds the one location at a position. */
  lemma {:induction false} LocationIndexFinds(locs: seq<Location>, i: nat, j: nat, raw: string)
    requires InOrder(locs)
    requires HasLocation(locs, i, j, raw)
    ensures (i, j) in LocationIndex(locs) && LocationIndex(locs)[(i, j)].raw == raw
    decreases |locs|
  {
    var n := |locs| - 1;
    var m :| 0 <= m < |locs| && locs[m].sentence == i && locs[m].tokenInSentence == j && locs[m].raw == raw;
    if m < n {
      assert Before(locs[m], locs[n]);
      var prefix := locs[..n];
      assert prefix[m] == locs[m];
      LocationIndexFinds(prefix, i, j, raw);
    }
  }

  /**
   * At every word token of the segmentation, the word's location index gives back
   * the raw text seen at that token.
   */
  lemma RawAtToken(cfg: Config, toks: seq<RawToken>, i: nat, j: nat)
    requires var ss := Sentences(Run(cfg, toks)); i < |ss| && j < |ss[i]| && ss[i][j].WordPiece?
    ensures var st := Run(cfg, toks); var q := Sentences(st)[i][j];
      q.key in st.entries && (i, j) in LocationIndex(st.entries[q.key].locations)
      && LocationIndex(st.entries[q.key].locations)[(i, j)].raw == q.raw
  {
    var st := Run(cfg, toks);
    RunInvariant(cfg, toks);
    assert Sentences(st)[i] == Slot(st, i);
    var q := Slot(st, i)[j];
    assert HasLocation(st.entries[q.key].locations, i, j, q.raw);
    LocationIndexFinds(st.entries[q.key].locations, i, j, q.raw);
  }

  /** Each key appears once in the first-appearance order. */
  lemma {:induction false} FirstKeysDistinct(ps: seq<Piece>)
    ensures forall a, b :: 0 <= a < b < |FirstKeys(ps)| ==> FirstKeys(ps)[a] != FirstKeys(ps)[b]
    decreases |ps|
  {
    if |ps| > 0 {
      FirstKeysDistinct(ps[..|ps| - 1]);
    }
  }

  /** The vocabulary order lists each word once, in order of first appearance. */
  lemma RunOrder(cfg: Config, toks: seq<RawToken>)
    ensures var st := Run(cfg, toks);
      st.order == FirstKeys(Flatten(Sentences(st)))
      && (forall a, b :: 0 <= a < b < |st.order| ==> st.order[a] != st.order[b])
      && (forall k :: k in st.entries <==> k in st.order)
  {
    RunInvariant(cfg, toks);
    SentencesFlatten(Run(cfg, toks));
    FirstKeysDistinct(Flatten(Sentences(Run(cfg, toks))));
  }
}
