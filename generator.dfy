/**
 * The quiz card generator: it reads a document into sentences and a vocabulary of
 * words, ranks the words by frequency, records the edit distances between them, and
 * answers queries over the result.
 *
 * The constructor is proved to follow the reference walk `Segmentation.Run`: after each
 * token, the sentence objects hold the walk's sentences and the word objects hold its
 * vocabulary.
 */
module Generator {
  import opened Wrappers
  import opened Text
  import opened Collections
  import opened Segmentation
  import opened Vocabulary
  import opened Ranking
  import opened Stats
  import opened Levenshtein
  import ED = EditDistance

  /** A sentence token stands for a piece: a word by its key, a plain string by its text. */
  predicate TokenMatches(t: Token, p: Piece) {
    match t
    case WordToken(w) => p.WordPiece? && p.key == w.key
    case StringToken(s) => p == PlainPiece(s)
  }

  predicate TokensMatch(ts: seq<Token>, ps: seq<Piece>) {
    |ts| == |ps| && forall i :: 0 <= i < |ts| ==> TokenMatches(ts[i], ps[i])
  }

  /** Matching tokens and pieces have the same word keys. */
  lemma MatchKeys(ts: seq<Token>, ps: seq<Piece>)
    requires TokensMatch(ts, ps)
    ensures TokenKeys(ts) == WordKeys(ps)
  {
    forall k | k in TokenKeys(ts) ensures k in WordKeys(ps) {
      var i :| 0 <= i < |ts| && ts[i].WordToken? && ts[i].word.key == k;
      assert TokenMatches(ts[i], ps[i]);
    }
    forall k | k in WordKeys(ps) ensures k in TokenKeys(ts) {
      var i :| 0 <= i < |ps| && ps[i].WordPiece? && ps[i].key == k;
      assert TokenMatches(ts[i], ps[i]);
    }
  }

  lemma MatchAppend(ts: seq<Token>, ps: seq<Piece>, t: Token, p: Piece)
    requires TokensMatch(ts, ps) && TokenMatches(t, p)
    ensures TokensMatch(ts + [t], ps + [p])
  {
  }

  /** Every word token is the word `m` holds for its key. */
  predicate InVocabulary(ts: seq<Token>, m: map<string, Word>) {
    forall j :: 0 <= j < |ts| && ts[j].WordToken? ==> ts[j].word.key in m && m[ts[j].word.key] == ts[j].word
  }

  /** `m2` keeps every entry of `m1`. */
  predicate Extends(m1: map<string, Word>, m2: map<string, Word>) {
    forall k :: k in m1 ==> k in m2 && m2[k] == m1[k]
  }

  lemma InVocabularyGrows(ts: seq<Token>, m1: map<string, Word>, m2: map<string, Word>)
    requires InVocabulary(ts, m1) && Extends(m1, m2)
    ensures InVocabulary(ts, m2)
  {
  }

  /** A word object holds a vocabulary entry, with no distance yet. */
  ghost predicate WordFollows(w: Word, e: WordEntry)
    reads w
  {
    w.raw == e.raw && w.locations == e.locations && w.LocationsValid() && w.NoDistances()
  }

  /** `get_words_by_frequency(limit, true)`: the keys of the first `limit` words (`slice(0, limit)`). */
  function HighestKeys(ks: seq<string>, limit: int): set<string> {
    Elements(Slice(ks, 0, limit))
  }

  /** `get_words_by_frequency(limit, false)`: the keys from `max(n - limit, 0)` on. */
  function LowestKeys(ks: seq<string>, limit: int): set<string> {
    Elements(SliceFrom(ks, if |ks| - limit >= 0 then |ks| - limit else 0))
  }

  /** The walk over one more token is one more step. */
  lemma RunSnoc(cfg: Config, toks: seq<RawToken>, t: RawToken)
    ensures Run(cfg, toks + [t]) == Step(cfg, Run(cfg, toks), t)
  {
    assert (toks + [t])[..|toks|] == toks;
  }

  /** The tokens of one more line are those of the earlier lines, then the line's own. */
  lemma LinesSnoc(lines: seq<string>, n: nat)
    requires n < |lines|
    ensures LinesUpTo(lines, n + 1) == LinesUpTo(lines, n) + PiecesUpTo(SplitWs(lines[n]), n, |SplitWs(lines[n])|)
  {
  }

  /** The tokens of a line up to one more piece. */
  lemma PiecesSnoc(done: seq<RawToken>, pieces: seq<string>, line: nat, n: nat)
    requires n < |pieces|
    ensures done + PiecesUpTo(pieces, line, n + 1)
            == (done + PiecesUpTo(pieces, line, n)) + (if |pieces[n]| > 0 then [RawToken(pieces[n], line, n)] else [])
  {
  }

  /** One piece of a line: a non-empty piece is a step of the walk, an empty one is skipped. */
  function StepPiece(cfg: Config, st: SegState, piece: string, line: nat, index: nat): SegState {
    if |piece| > 0 then Step(cfg, st, RawToken(piece, line, index)) else st
  }

  /** The walk from `st` over the pieces of a line from the `k`-th on. */
  function LineWalkFrom(cfg: Config, st: SegState, pieces: seq<string>, line: nat, k: nat): SegState
    decreases |pieces| - k
  {
    if k >= |pieces| then st else LineWalkFrom(cfg, StepPiece(cfg, st, pieces[k], line, k), pieces, line, k + 1)
  }

  /** The walk from `st` over the lines of the document from the `k`-th on. */
  function LinesWalkFrom(cfg: Config, st: SegState, lines: seq<string>, k: nat): SegState
    decreases |lines| - k
  {
    if k >= |lines| then st else LinesWalkFrom(cfg, LineWalkFrom(cfg, st, SplitWs(lines[k]), k, 0), lines, k + 1)
  }

  /** One piece of a line: a token of the walk when non-empty, skipped otherwise. */
  lemma LineWalkStep(cfg: Config, done: seq<RawToken>, pieces: seq<string>, line: nat, k: nat)
    requires k < |pieces|
    ensures LineWalkFrom(cfg, Run(cfg, done + PiecesUpTo(pieces, line, k)), pieces, line, k)
            == LineWalkFrom(cfg, Run(cfg, done + PiecesUpTo(pieces, line, k + 1)), pieces, line, k + 1)
  {
    var before := done + PiecesUpTo(pieces, line, k);
    PiecesSnoc(done, pieces, line, k);
    if |pieces[k]| > 0 {
      RunSnoc(cfg, before, RawToken(pieces[k], line, k));
    } else {
      assert before + [] == before;
    }
  }

  /** Every piece of a line from the `k`-th on continues the walk over the earlier pieces' tokens. */
  lemma LineWalkSteps(cfg: Config, done: seq<RawToken>, pieces: seq<string>, line: nat, k: nat)
    ensures forall j: nat :: k <= j < |pieces| ==>
      LineWalkFrom(cfg, Run(cfg, done + PiecesUpTo(pieces, line, j)), pieces, line, j)
      == LineWalkFrom(cfg, Run(cfg, done + PiecesUpTo(pieces, line, j + 1)), pieces, line, j + 1)
  {
    forall j: nat | k <= j < |pieces|
      ensures LineWalkFrom(cfg, Run(cfg, done + PiecesUpTo(pieces, line, j)), pieces, line, j)
              == LineWalkFrom(cfg, Run(cfg, done + PiecesUpTo(pieces, line, j + 1)), pieces, line, j + 1)
    {
      LineWalkStep(cfg, done, pieces, line, j);
    }
  }

  /** Past the last piece the walk over a line stops. */
  lemma LineWalkEnd(cfg: Config, st: SegState, pieces: seq<string>, line: nat, k: nat)
    requires k >= |pieces|
    ensures LineWalkFrom(cfg, st, pieces, line, k) == st
  {
  }

  /** Walking the rest of a line piece by piece is walking the rest of its tokens. */
  lemma LineWalkRun(cfg: Config, done: seq<RawToken>, pieces: seq<string>, line: nat, k: nat)
    requires k <= |pieces|
    ensures LineWalkFrom(cfg, Run(cfg, done + PiecesUpTo(pieces, line, k)), pieces, line, k)
            == Run(cfg, done + PiecesUpTo(pieces, line, |pieces|))
  {
    var f := (j: nat) =>
      if j <= |pieces| then LineWalkFrom(cfg, Run(cfg, done + PiecesUpTo(pieces, line, j)), pieces, line, j) else Initial();
    LineWalkSteps(cfg, done, pieces, line, k);
    ChainEqual(f, k, |pieces|);
    LineWalkEnd(cfg, Run(cfg, done + PiecesUpTo(pieces, line, |pieces|)), pieces, line, |pieces|);
  }

  /** Walking one more line continues the walk over the earlier lines' tokens. */
  lemma LineWalkLines(cfg: Config, lines: seq<string>, n: nat)
    requires n < |lines|
    ensures LineWalkFrom(cfg, Run(cfg, LinesUpTo(lines, n)), SplitWs(lines[n]), n, 0) == Run(cfg, LinesUpTo(lines, n + 1))
  {
    LinesSnoc(lines, n);
    LineWalkRun(cfg, LinesUpTo(lines, n), SplitWs(lines[n]), n, 0);
    assert LinesUpTo(lines, n) + PiecesUpTo(SplitWs(lines[n]), n, 0) == LinesUpTo(lines, n);
  }

  lemma LinesWalkFromStep(cfg: Config, st: SegState, lines: seq<string>, k: nat)
    requires k < |lines|
    ensures LinesWalkFrom(cfg, st, lines, k) == LinesWalkFrom(cfg, LineWalkFrom(cfg, st, SplitWs(lines[k]), k, 0), lines, k + 1)
  {
  }

  /** One line of the document: walking it continues the walk over the earlier lines' tokens. */
  lemma LinesWalkRunStep(cfg: Config, lines: seq<string>, k: nat)
    requires k < |lines|
    ensures LinesWalkFrom(cfg, Run(cfg, LinesUpTo(lines, k)), lines, k)
            == LinesWalkFrom(cfg, Run(cfg, LinesUpTo(lines, k + 1)), lines, k + 1)
  {
    LinesWalkFromStep(cfg, Run(cfg, LinesUpTo(lines, k)), lines, k);
    LineWalkLines(cfg, lines, k);
  }

  /** Past the last line the walk stops. */
  lemma LinesWalkEnd(cfg: Config, st: SegState, lines: seq<string>, k: nat)
    requires k >= |lines|
    ensures LinesWalkFrom(cfg, st, lines, k) == st
  {
  }

  /** Every line of the document from the `k`-th on continues the walk over the earlier lines' tokens. */
  lemma LinesWalkSteps(cfg: Config, lines: seq<string>, k: nat)
    ensures forall j: nat :: k <= j < |lines| ==>
      LinesWalkFrom(cfg, Run(cfg, LinesUpTo(lines, j)), lines, j)
      == LinesWalkFrom(cfg, Run(cfg, LinesUpTo(lines, j + 1)), lines, j + 1)
  {
    forall j: nat | k <= j < |lines|
      ensures LinesWalkFrom(cfg, Run(cfg, LinesUpTo(lines, j)), lines, j)
              == LinesWalkFrom(cfg, Run(cfg, LinesUpTo(lines, j + 1)), lines, j + 1)
    {
      LinesWalkRunStep(cfg, lines, j);
    }
  }

  /** Walking the rest of the document line by line is walking the rest of its tokens. */
  lemma LinesWalkRun(cfg: Config, lines: seq<string>, k: nat)
    requires k <= |lines|
    ensures LinesWalkFrom(cfg, Run(cfg, LinesUpTo(lines, k)), lines, k) == Run(cfg, LinesUpTo(lines, |lines|))
  {
    var f := (j: nat) =>
      if j <= |lines| then LinesWalkFrom(cfg, Run(cfg, LinesUpTo(lines, j)), lines, j) else Initial();
    LinesWalkSteps(cfg, lines, k);
    ChainEqual(f, k, |lines|);
    LinesWalkEnd(cfg, Run(cfg, LinesUpTo(lines, |lines|)), lines, |lines|);
  }

  /** The constructor's line-by-line walk is the walk over the document's tokens. */
  lemma DocumentWalk(cfg: Config, source: string)
    ensures LinesWalkFrom(cfg, Initial(), SplitLines(source), 0) == Run(cfg, DocumentTokens(source))
  {
    LinesWalkRun(cfg, SplitLines(source), 0);
  }

  /** The vocabulary order of the line-by-line walk names each key of its entries once. */
  lemma DocumentOrder(cfg: Config, source: string)
    ensures var st := LinesWalkFrom(cfg, Initial(), SplitLines(source), 0);
      Distinct(st.order) && (forall k :: k in st.entries <==> k in st.order)
  {
    DocumentWalk(cfg, source);
    RunOrder(cfg, DocumentTokens(source));
  }

  /**
   * A word's distance bookkeeping after the statistics pass, among the vocabulary `keys`:
   * the records agree, name only words of the vocabulary, and hold every other word exactly
   * when the engine, given the earlier-inserted key first, did not give up, with its answer.
   */
  ghost predicate RecordedAmong(key: string, r: DistanceRecords, keys: seq<string>) {
    DistancesAgree(key, r.buckets, r.byWord, r.lo, r.hi)
    && (forall k :: k in r.byWord ==> k in keys)
    && forall i :: 0 <= i < |keys| && keys[i] != key ==>
         PairHolds(OrderedDistance(key, keys[i], IndexOf(keys, key) < i), keys[i], r.byWord, true)
  }

  /**
   * A key is in the walk's vocabulary exactly when it occurs as a word of the document,
   * and its number of locations is its number of occurrences.
   */
  lemma WordCount(cfg: Config, source: string, k: string)
    ensures var st := Run(cfg, DocumentTokens(source));
      (k in st.entries <==> CountKey(k, Flatten(Segment(cfg, source))) > 0)
      && (k in st.entries ==> |st.entries[k].locations| == CountKey(k, Flatten(Segment(cfg, source))))
  {
    RunInvariant(cfg, DocumentTokens(source));
    RunFrequency(cfg, DocumentTokens(source), k);
  }

  /** The first `n` elements of a sequence without repetitions are `min(n, |s|)` distinct elements. */
  lemma SliceCount<T>(s: seq<T>, n: int)
    requires Distinct(s)
    ensures n >= 0 ==> |Elements(Slice(s, 0, n))| == if n <= |s| then n else |s|
    ensures n >= 0 ==> |Elements(SliceFrom(s, if |s| - n >= 0 then |s| - n else 0))| == if n <= |s| then n else |s|
  {
    if n >= 0 {
      SliceHead(s, n);
      var h := s[..if n <= |s| then n else |s|];
      var t := s[if |s| - n >= 0 then |s| - n else 0..];
      DistinctPrefix(s, |h|);
      DistinctSuffix(s, |s| - |t|);
      DistinctCard(h);
      DistinctCard(t);
    }
  }

  /**
   * The first keys of a sequence without repetitions are the answer for their own number:
   * asking again with that number gives the same set.
   */
  lemma HighestKeysStable(ks: seq<string>, limit: int)
    requires Distinct(ks)
    ensures HighestKeys(ks, |HighestKeys(ks, limit)|) == HighestKeys(ks, limit)
  {
    var e := Slice(ks, 0, limit);
    var c := Relative(limit, |ks|);
    assert e == ks[..c];
    DistinctPrefix(ks, c);
    DistinctCard(e);
    assert Slice(ks, 0, c) == e;
  }

  /** The same for the last keys of a sequence without repetitions. */
  lemma LowestKeysStable(ks: seq<string>, limit: int)
    requires Distinct(ks)
    ensures LowestKeys(ks, |LowestKeys(ks, limit)|) == LowestKeys(ks, limit)
  {
    var o := if |ks| - limit >= 0 then |ks| - limit else 0;
    var e := SliceFrom(ks, o);
    var c := Relative(o, |ks|);
    assert e == ks[c..];
    DistinctSuffix(ks, c);
    DistinctCard(e);
    assert SliceFrom(ks, |ks| - |e|) == e;
  }

  class QuizCardGenerator {
    /** The constructor's parameters that shape the segmentation. */
    const cfg: Config
    /** The document the generator was built from. */
    ghost const source: string
    /** The segmentation walk over the document's tokens, which the parse follows. */
    ghost const walk: SegState
    /** The literal exclusions, lower-cased. */
    var wordExcludes: set<string>
    /** The vocabulary, by key. */
    var words: map<string, Word>
    /** The vocabulary's keys in insertion order (the iteration order of the source's `Map`). */
    var wordOrder: seq<string>
    var sentences: seq<Sentence>
    /** The vocabulary by non-increasing frequency, ties in insertion order. */
    var wordsFrequencyDesc: seq<Word>
    /** The insertion positions of `wordsFrequencyDesc`. */
    ghost var rank: seq<nat>
    /** The last result of `GetWordsByFrequency` for highest and for lowest frequency. */
    var highestMemo: Option<set<string>>
    var lowestMemo: Option<set<string>>

    // -------------------------------------------------------------------------------
    // The parse in progress: the heap follows a state of the reference walk

    /** The word objects are the vocabulary's: one per key. */
    ghost predicate Interned(w: Word)
      reads this`words
    {
      w.key in words && words[w.key] == w
    }

    /** The committed sentences hold the walk's closed sentences, and each knows its index. */
    ghost predicate ClosedFollow(closed: seq<seq<Piece>>)
      reads this`sentences, sentences
    {
      |sentences| == |closed|
      && forall i :: 0 <= i < |sentences| ==>
           sentences[i].index == i && TokensMatch(sentences[i].tokens, closed[i])
    }

    /** The open sentence holds the walk's open sentence and comes after the committed ones. */
    ghost predicate OpenFollows(st: SegState, cur: Sentence)
      reads this`sentences, cur
    {
      cur.index == |st.closed| && cur.Valid() && TokensMatch(cur.tokens, st.current) && cur !in sentences
    }

    /** Every word token of a committed sentence is the word `m` holds for its key. */
    ghost predicate ClosedSharedIn(m: map<string, Word>)
      reads this`sentences, sentences
    {
      forall i :: 0 <= i < |sentences| ==> InVocabulary(sentences[i].tokens, m)
    }

    lemma ClosedSharedGrows(m1: map<string, Word>, m2: map<string, Word>)
      requires ClosedSharedIn(m1) && Extends(m1, m2)
      ensures ClosedSharedIn(m2)
    {
      forall i | 0 <= i < |sentences| ensures InVocabulary(sentences[i].tokens, m2) {
        InVocabularyGrows(sentences[i].tokens, m1, m2);
      }
    }

    /** Every word token of the open sentence is the vocabulary's word for its key. */
    ghost predicate OpenShared(cur: Sentence)
      reads this`words, cur
    {
      InVocabulary(cur.tokens, words)
    }

    /** The word objects hold the walk's vocabulary, none with a distance yet. */
    ghost predicate VocabularyFollows(st: SegState)
      reads this`words, this`wordOrder, words.Values
    {
      wordOrder == st.order
      && (forall k :: k in words <==> k in st.entries)
      && forall k :: k in words ==> words[k].key == k && WordFollows(words[k], st.entries[k])
    }

    /** Consecutive committed sentences are linked both ways, and the first has none before it. */
    ghost predicate Chained()
      reads this`sentences, sentences
    {
      (forall i, j :: 0 <= i < j < |sentences| && j == i + 1 ==> sentences[i].after == sentences[j] && sentences[j].before == sentences[i])
      && (|sentences| > 0 ==> sentences[0].before == null)
    }

    /** The committed sentences are chained and the last links to the open one, which has none after it. */
    ghost predicate Linked(cur: Sentence)
      reads this`sentences, sentences, cur
    {
      Chained()
      && (|sentences| == 0 ==> cur.before == null)
      && (|sentences| > 0 ==> sentences[|sentences| - 1].after == cur && cur.before == sentences[|sentences| - 1])
      && cur.after == null
    }

    /** Right after a commit: the walk's open sentence is empty and the last committed sentence has none after it yet. */
    ghost predicate Committed(st: SegState)
      reads this`wordExcludes, this`sentences, this`words, this`wordOrder, sentences, words.Values
    {
      wordExcludes == LiteralKeys(cfg) && st.current == []
      && ClosedFollow(st.closed) && ClosedSharedIn(words) && VocabularyFollows(st)
      && Chained() && |sentences| > 0 && sentences[|sentences| - 1].after == null
    }

    /** The parse after some tokens: the heap follows the walk's state `st`, with `cur` open. */
    ghost predicate Building(st: SegState, cur: Sentence)
      reads this`wordExcludes, this`sentences, this`words, this`wordOrder, sentences, cur, words.Values
    {
      wordExcludes == LiteralKeys(cfg)
      && ClosedFollow(st.closed) && OpenFollows(st, cur) && ClosedSharedIn(words) && OpenShared(cur)
      && VocabularyFollows(st) && Linked(cur)
    }

    /** The vocabulary's word for a key: the existing one, or a new one added with `raw` as its first text. */
    method InternWord(key: string, raw: string) returns (w: Word)
      requires forall k :: k in words ==> words[k].key == k
      modifies this`words, this`wordOrder
      ensures w.key == key && words == old(words)[key := w] && Extends(old(words), words)
      ensures key in old(words) ==> w == old(words)[key] && wordOrder == old(wordOrder)
      ensures key !in old(words) ==>
                fresh(w) && wordOrder == old(wordOrder) + [key]
                && w.raw == raw && w.locations == [] && w.LocationsValid() && w.NoDistances()
    {
      if key in words {
        w := words[key];
        assert words == old(words)[key := w];
      } else {
        w := new Word(key, raw);
        words := words[key := w];
        wordOrder := wordOrder + [key];
      }
    }

    /** One more occurrence of a word, in the open sentence; no sentence changes. */
    method Occur(w: Word, t: RawToken, cur: Sentence, ghost st: SegState, ghost m: map<string, Word>)
      requires ClosedFollow(st.closed) && OpenFollows(st, cur) && Linked(cur)
      requires ClosedSharedIn(m) && InVocabulary(cur.tokens, m)
      modifies w`locations, w`sentenceLocations, w`frequency
      ensures w.locations == old(w.locations) + [Location(t.raw, t.line, t.index, cur.index, |cur.tokens|)]
      ensures old(w.LocationsValid()) ==> w.LocationsValid()
      ensures old(w.NoDistances()) ==> w.NoDistances()
      ensures ClosedFollow(st.closed) && OpenFollows(st, cur) && Linked(cur)
      ensures ClosedSharedIn(m) && InVocabulary(cur.tokens, m)
    {
      w.AddLocation(Some(t.raw), t.line, t.index, cur);
    }

    /**
     * The occurrence recorded in the key's word: the vocabulary then follows the walk with
     * the occurrence registered. The other words are left as they are.
     */
    method RecordOccurrence(w: Word, t: RawToken, key: string, cur: Sentence, ghost st: SegState, ghost m: map<string, Word>)
      requires key in words && words[key] == w && w.key == key
      requires WordFollows(w, if key in st.entries then st.entries[key] else WordEntry(t.raw, []))
      requires forall k :: k in words && k != key ==> k in st.entries && words[k].key == k && WordFollows(words[k], st.entries[k])
      requires words.Keys == st.entries.Keys + {key}
      requires wordOrder == if key in st.entries then st.order else st.order + [key]
      requires ClosedFollow(st.closed) && OpenFollows(st, cur) && Linked(cur)
      requires ClosedSharedIn(m) && InVocabulary(cur.tokens, m)
      modifies w`locations, w`sentenceLocations, w`frequency
      ensures ClosedFollow(st.closed) && OpenFollows(st, cur) && Linked(cur)
      ensures ClosedSharedIn(m) && InVocabulary(cur.tokens, m)
      ensures VocabularyFollows(Register(st, key, Location(t.raw, t.line, t.index, |st.closed|, |st.current|)))
    {
      Occur(w, t, cur, st, m);
      ghost var st' := Register(st, key, Location(t.raw, t.line, t.index, |st.closed|, |st.current|));
      assert WordFollows(w, st'.entries[key]);
      forall k | k in words && k != key ensures words[k].key == k && WordFollows(words[k], st'.entries[k]) {
        assert words[k] != w && old(WordFollows(words[k], st.entries[k]));
      }
    }

    /** The vocabulary's word for a key, with the occurrence recorded; no sentence changes. */
    method LocateWord(t: RawToken, key: string, cur: Sentence, ghost st: SegState) returns (w: Word)
      requires ClosedFollow(st.closed) && OpenFollows(st, cur) && Linked(cur)
      requires ClosedSharedIn(words) && InVocabulary(cur.tokens, words) && VocabularyFollows(st)
      modifies this`words, this`wordOrder, if key in words then {words[key]} else {}
      ensures w.key == key && words == old(words)[key := w] && Extends(old(words), words)
      ensures key in old(words) ==> w == old(words)[key]
      ensures key !in old(words) ==> fresh(w)
      ensures ClosedFollow(st.closed) && OpenFollows(st, cur) && Linked(cur)
      ensures ClosedSharedIn(old(words)) && InVocabulary(cur.tokens, old(words))
      ensures VocabularyFollows(Register(st, key, Location(t.raw, t.line, t.index, |st.closed|, |st.current|)))
    {
      ghost var entry := if key in st.entries then st.entries[key] else WordEntry(t.raw, []);
      w := InternWord(key, t.raw);
      assert WordFollows(w, entry);
      forall k | k in words && k != key ensures k in st.entries && words[k].key == k && WordFollows(words[k], st.entries[k]) {
        assert words[k] == old(words)[k];
      }
      RecordOccurrence(w, t, key, cur, st, old(words));
    }

    /** A word occurrence: the word is interned and located; every sentence stays as it was. */
    method RecordWord(t: RawToken, key: string, cur: Sentence, ghost st: SegState) returns (w: Word)
      requires Building(st, cur)
      modifies this`words, this`wordOrder, if key in words then {words[key]} else {}
      ensures w.key == key && Interned(w)
      ensures Extends(old(words), words) && forall k :: k in words ==> k in old(words) || fresh(words[k])
      ensures Building(Register(st, key, Location(t.raw, t.line, t.index, |st.closed|, |st.current|)), cur)
    {
      w := LocateWord(t, key, cur, st);
      ClosedSharedGrows(old(words), words);
      InVocabularyGrows(cur.tokens, old(words), words);
    }

    /** A token joins the open sentence; a word token must be the vocabulary's word. */
    method AppendToOpen(tok: Token, p: Piece, cur: Sentence, ghost st: SegState)
      requires Building(st, cur)
      requires TokenMatches(tok, p)
      requires tok.WordToken? ==> Interned(tok.word)
      modifies cur`tokens, cur`words
      ensures Building(st.(current := st.current + [p]), cur)
    {
      MatchAppend(cur.tokens, st.current, tok, p);
      cur.AddToken(tok);
      assert InVocabulary(cur.tokens, words) by {
        assert cur.tokens == old(cur.tokens) + [tok];
      }
    }

    /** The open sentence joins the committed ones. */
    method PushOpen(cur: Sentence, ghost st: SegState)
      requires Building(st, cur)
      modifies this`sentences
      ensures sentences == old(sentences) + [cur]
      ensures Committed(Commit(st))
    {
      sentences := sentences + [cur];
      assert ClosedFollow(st.closed + [st.current]) by {
        forall i | 0 <= i < |sentences| ensures sentences[i].index == i && TokensMatch(sentences[i].tokens, (st.closed + [st.current])[i]) {
          if i < |sentences| - 1 {
            assert sentences[i] == old(sentences)[i];
          }
        }
      }
      assert ClosedSharedIn(words) by {
        forall i | 0 <= i < |sentences| ensures InVocabulary(sentences[i].tokens, words) {
          if i < |sentences| - 1 {
            assert sentences[i] == old(sentences)[i];
          }
        }
      }
      assert Chained() by {
        forall i, j | 0 <= i < j < |sentences| && j == i + 1 ensures sentences[i].after == sentences[j] && sentences[j].before == sentences[i] {
          if j < |sentences| - 1 {
            assert sentences[i] == old(sentences)[i] && sentences[j] == old(sentences)[j];
          }
        }
      }
    }

    /** A new, empty sentence opens after the last committed one, linked both ways. */
    method OpenNext(cur: Sentence, ghost st: SegState) returns (next: Sentence)
      requires Committed(st) && sentences[|sentences| - 1] == cur
      modifies cur`after
      ensures fresh(next) && Building(st, next)
    {
      next := new Sentence(|sentences|);
      next.SetBefore(cur);
      Attach(cur, next, st);
    }

    /** The last committed sentence links forward to the new open one. */
    method Attach(cur: Sentence, next: Sentence, ghost st: SegState)
      requires Committed(st) && sentences[|sentences| - 1] == cur
      requires next !in sentences && next.index == |sentences| && next.Valid() && next.tokens == []
      requires next.before == cur && next.after == null
      modifies cur`after
      ensures Building(st, next)
    {
      cur.SetAfter(next);
      assert ClosedFollow(st.closed) by {
        forall i | 0 <= i < |sentences| ensures sentences[i].index == i && TokensMatch(sentences[i].tokens, st.closed[i]) {
          assert sentences[i].tokens == old(sentences[i].tokens);
        }
      }
      assert ClosedSharedIn(words) by {
        forall i | 0 <= i < |sentences| ensures InVocabulary(sentences[i].tokens, words) {
          assert sentences[i].tokens == old(sentences[i].tokens);
        }
      }
      assert Chained() by {
        forall i, j | 0 <= i < j < |sentences| && j == i + 1 ensures sentences[i].after == sentences[j] && sentences[j].before == sentences[i] {
          assert sentences[i].after == old(sentences[i].after) && sentences[j].before == old(sentences[j].before);
        }
      }
    }

    /**
     * `next_sentence`: the open sentence is committed and a new one opened, unless it has
     * fewer distinct words than the minimum, in which case it stays open.
     */
    method NextSentence(cur: Sentence, ghost st: SegState) returns (next: Sentence)
      requires Building(st, cur)
      modifies this`sentences, cur`after
      ensures Defers(cfg, st.current) ==> next == cur && sentences == old(sentences) && Building(st, cur)
      ensures !Defers(cfg, st.current) ==> fresh(next) && sentences == old(sentences) + [cur] && Building(Commit(st), next)
    {
      MatchKeys(cur.tokens, st.current);
      if cfg.wordMin.Some? && cur.GetWordCount() < cfg.wordMin.value {
        next := cur;
      } else {
        PushOpen(cur, st);
        next := OpenNext(cur, Commit(st));
      }
    }

    /** A token of the document joins the open sentence: as a word, unless it is excluded or has no key. */
    method AddToOpen(t: RawToken, cur: Sentence, ghost st: SegState)
      requires Building(st, cur)
      modifies this`words, this`wordOrder, cur`tokens, cur`words
      modifies if Key(cfg.ops, t.raw) in words then {words[Key(cfg.ops, t.raw)]} else {}
      ensures Extends(old(words), words) && forall k :: k in words ==> k in old(words) || fresh(words[k])
      ensures Building(Appended(cfg, st, t), cur)
    {
      var key := cfg.ops.lower(cfg.ops.strip(t.raw));
      if |key| > 0 && key !in wordExcludes && !PatternHit(cfg, t.raw) {
        AppendedWord(cfg, st, t, key);
        var w := RecordWord(t, key, cur, st);
        AppendToOpen(WordToken(w), WordPiece(key, t.raw), cur, Register(st, key, Location(t.raw, t.line, t.index, |st.closed|, |st.current|)));
      } else {
        AppendedPlain(cfg, st, t);
        AppendToOpen(StringToken(t.raw), PlainPiece(t.raw), cur, st);
      }
    }

    /**
     * After a token: the open sentence ends when it has reached the token maximum or the
     * token carries sentence-ending punctuation.
     */
    method EndSentence(t: RawToken, cur: Sentence, ghost st: SegState) returns (next: Sentence)
      requires Building(st, cur) && |st.current| > 0 && st.current[|st.current| - 1].raw == t.raw
      modifies this`sentences, cur`after
      ensures words == old(words)
      ensures next == cur || fresh(next)
      ensures Building(if EndsAt(cfg, st.current, |st.current|) && !Defers(cfg, st.current) then Commit(st) else st, next)
    {
      if (cfg.tokenMax.Some? && cur.GetTokenCount() >= cfg.tokenMax.value) || HasTerminal(t.raw) {
        next := NextSentence(cur, st);
      } else {
        next := cur;
      }
    }

    /** One token of the document: it joins the open sentence, which may then end. */
    method ProcessToken(t: RawToken, cur: Sentence, ghost st: SegState) returns (next: Sentence)
      requires Building(st, cur)
      modifies this`words, this`wordOrder, this`sentences, cur`tokens, cur`words, cur`after
      modifies if Key(cfg.ops, t.raw) in words then {words[Key(cfg.ops, t.raw)]} else {}
      ensures Extends(old(words), words) && forall k :: k in words ==> k in old(words) || fresh(words[k])
      ensures next == cur || fresh(next)
      ensures Building(Step(cfg, st, t), next)
    {
      AddToOpen(t, cur, st);
      next := EndSentence(t, cur, Appended(cfg, st, t));
    }

    /** After the last token: the kept sentences are the walk's, and the word objects hold its vocabulary. */
    ghost predicate Finished(st: SegState)
      reads this`wordExcludes, this`sentences, this`words, this`wordOrder, sentences, words.Values
    {
      wordExcludes == LiteralKeys(cfg)
      && ClosedFollow(Sentences(st)) && ClosedSharedIn(words) && VocabularyFollows(st) && Chained()
    }

    /** The literal exclusions, lower-cased; a pattern exclusion only takes part through `PatternHit`. */
    method CollectExcludes()
      modifies this`wordExcludes
      ensures wordExcludes == LiteralKeys(cfg)
    {
      wordExcludes := {};
      var i := 0;
      while i < |cfg.excludes|
        invariant i <= |cfg.excludes|
        invariant wordExcludes == set j | 0 <= j < i && cfg.excludes[j].Literal? :: cfg.ops.lower(cfg.excludes[j].text)
      {
        if cfg.excludes[i].Literal? {
          wordExcludes := wordExcludes + {cfg.ops.lower(cfg.excludes[i].text)};
        }
        i := i + 1;
      }
    }

    /** After the last token the open sentence is kept if it holds any token, whatever its word count. */
    method Flush(cur: Sentence, ghost st: SegState)
      requires Building(st, cur)
      modifies this`sentences
      ensures Finished(st)
    {
      if !cur.IsEmpty() {
        PushOpen(cur, st);
        assert Sentences(st) == Commit(st).closed;
      } else {
        assert Sentences(st) == st.closed;
      }
    }

    /** One piece of a line: a non-empty piece is a token of the walk; an empty one is skipped. */
    method ParsePiece(piece: string, li: nat, pi: nat, cur: Sentence, ghost st: SegState) returns (next: Sentence, ghost st': SegState)
      requires Building(st, cur)
      modifies this`words, this`wordOrder, this`sentences, cur`tokens, cur`words, cur`after, words.Values
      ensures st' == StepPiece(cfg, st, piece, li, pi)
      ensures Building(st', next) && (next == cur || fresh(next))
      ensures forall w :: w in words.Values ==> w in old(words).Values || fresh(w)
    {
      if |piece| > 0 {
        next := ProcessToken(RawToken(piece, li, pi), cur, st);
        st' := Step(cfg, st, RawToken(piece, li, pi));
        forall w | w in words.Values ensures w in old(words).Values || fresh(w) {
          var k :| k in words && words[k] == w;
          if k in old(words) {
            assert old(words)[k] == w;
          }
        }
      } else {
        next := cur;
        st' := st;
      }
    }

    /** One line of the document: its whitespace-separated pieces, in order. */
    method ParseLine(pieces: seq<string>, li: nat, cur: Sentence, ghost st: SegState) returns (next: Sentence, ghost st': SegState)
      requires Building(st, cur)
      modifies this`words, this`wordOrder, this`sentences, cur`tokens, cur`words, cur`after, words.Values
      ensures st' == LineWalkFrom(cfg, st, pieces, li, 0)
      ensures Building(st', next) && (next == cur || fresh(next))
      ensures forall w :: w in words.Values ==> w in old(words).Values || fresh(w)
    {
      next, st' := cur, st;
      var pi := 0;
      while pi < |pieces|
        invariant pi <= |pieces| && LineWalkFrom(cfg, st', pieces, li, pi) == LineWalkFrom(cfg, st, pieces, li, 0)
        invariant Building(st', next) && (next == cur || fresh(next))
        invariant forall w :: w in words.Values ==> w in old(words).Values || fresh(w)
      {
        next, st' := ParsePiece(pieces[pi], li, pi, next, st');
        pi := pi + 1;
      }
    }

    /** The constructor's walk over the lines of the document. */
    method ParseLines(lines: seq<string>, cur: Sentence) returns (next: Sentence, ghost st: SegState)
      requires Building(Initial(), cur) && words == map[]
      modifies this`words, this`wordOrder, this`sentences, cur`tokens, cur`words, cur`after
      ensures st == LinesWalkFrom(cfg, Initial(), lines, 0) && Building(st, next)
      ensures forall w :: w in words.Values ==> fresh(w)
    {
      next, st := cur, Initial();
      var li := 0;
      while li < |lines|
        invariant li <= |lines| && LinesWalkFrom(cfg, st, lines, li) == LinesWalkFrom(cfg, Initial(), lines, 0)
        invariant Building(st, next) && (next == cur || fresh(next))
        invariant forall w :: w in words.Values ==> fresh(w)
      {
        next, st := ParseLine(SplitWs(lines[li]), li, next, st);
        li := li + 1;
      }
    }

    // -------------------------------------------------------------------------------
    // The finished generator, read through values

    /**
     * The committed sentences hold the walk's sentences `closed` in order, each knowing
     * its index; their words are the vocabulary's; consecutive ones are linked both ways
     * and the first has none before it.
     */
    ghost predicate SentencesFollow(closed: seq<seq<Piece>>)
      reads this`sentences, this`words, sentences`tokens, sentences`before, sentences`after
    {
      |sentences| == |closed|
      && (forall i :: 0 <= i < |sentences| ==>
            sentences[i].index == i && TokensMatch(sentences[i].tokens, closed[i]) && InVocabulary(sentences[i].tokens, words))
      && (forall i :: 0 <= i < |sentences| - 1 ==> sentences[i].after == sentences[i + 1] && sentences[i + 1].before == sentences[i])
      && (|sentences| > 0 ==> sentences[0].before == null)
    }

    /** The word objects hold the walk's vocabulary: the same keys in the same insertion order, and each word's first text and occurrences. */
    ghost predicate VocabularyMatches(st: SegState)
      reads this`words, this`wordOrder, words.Values`locations, words.Values`frequency, words.Values`sentenceLocations
    {
      wordOrder == st.order
      && (forall k :: k in words <==> k in st.entries)
      && forall k :: k in words ==> words[k].raw == st.entries[k].raw && words[k].Occurrence() == OccurrencesAt(st.entries[k].locations)
    }

    /** The parse is complete: the sentences and the vocabulary are those of the walk's final state `st`. */
    ghost predicate Parsed(st: SegState)
      reads this`wordExcludes, this`sentences, this`words, this`wordOrder, sentences`tokens, sentences`before, sentences`after
      reads words.Values`locations, words.Values`frequency, words.Values`sentenceLocations
    {
      wordExcludes == LiteralKeys(cfg)
      && SentencesFollow(Sentences(st))
      && VocabularyMatches(st)
    }

    /** The vocabulary's keys: each word under its own key, each key once in insertion order. */
    ghost predicate Keyed()
      reads this`words, this`wordOrder
    {
      Distinct(wordOrder) && (forall k :: k in words <==> k in wordOrder)
      && forall k :: k in words ==> words[k].key == k
    }

    /** No word has a distance recorded yet. */
    ghost predicate NoDistancesYet()
      reads this`words, words.Values`distances, words.Values`distanceByWord, words.Values`rangeMin, words.Values`rangeMax
    {
      forall k :: k in words ==> words[k].Records() == DistanceRecords(map[], map[], MaxValue, 0)
    }

    /**
     * `wordsFrequencyDesc` is the vocabulary ranked by non-increasing frequency, ties in
     * insertion order: `rank` holds each entry's position in `wordOrder`.
     */
    ghost predicate Ranked()
      reads this`words, this`wordOrder, this`wordsFrequencyDesc, this`rank, words.Values`frequency
    {
      (forall k :: k in wordOrder ==> k in words)
      && Permutes(rank, |wordOrder|) && |wordsFrequencyDesc| == |wordOrder|
      && (forall p :: 0 <= p < |rank| ==> wordsFrequencyDesc[p] == words[wordOrder[rank[p]]])
      && forall a, b :: 0 <= a < b < |wordsFrequencyDesc| ==>
           wordsFrequencyDesc[a].frequency > wordsFrequencyDesc[b].frequency
           || (wordsFrequencyDesc[a].frequency == wordsFrequencyDesc[b].frequency && rank[a] < rank[b])
    }

    /**
     * Every word records, for every other word of the vocabulary, the answer of the bounded
     * engine (the earlier-inserted key first, bound 10) unless it gave up, and nothing else;
     * its records agree.
     */
    ghost predicate DistancesRecorded()
      reads this`words, this`wordOrder, words.Values`distances, words.Values`distanceByWord, words.Values`rangeMin, words.Values`rangeMax
    {
      forall k :: k in words ==> RecordedAmong(k, words[k].Records(), wordOrder)
    }

    /** The state after construction that the queries rely on. */
    ghost predicate Consistent()
      reads this`wordExcludes, this`sentences, this`words, this`wordOrder, this`wordsFrequencyDesc, this`rank
      reads sentences`tokens, sentences`before, sentences`after, words.Values`locations, words.Values`frequency, words.Values`sentenceLocations
    {
      walk == Run(cfg, DocumentTokens(source)) && Parsed(walk) && Keyed() && Ranked()
    }

    /** The ranking's keys are distinct, and each remembered result of `GetWordsByFrequency` is the answer for its own size. */
    ghost predicate MemosSound()
      reads this`wordsFrequencyDesc, this`highestMemo, this`lowestMemo
    {
      Distinct(KeysOf(wordsFrequencyDesc))
      && (highestMemo.Some? ==> highestMemo.value == HighestKeys(KeysOf(wordsFrequencyDesc), |highestMemo.value|))
      && (lowestMemo.Some? ==> lowestMemo.value == LowestKeys(KeysOf(wordsFrequencyDesc), |lowestMemo.value|))
    }

    /** The end of the walk, read back as values. */
    lemma FinishedParsed(st: SegState)
      requires Finished(st)
      ensures Parsed(st) && NoDistancesYet()
    {
      forall k | k in words
        ensures words[k].Occurrence() == OccurrencesAt(st.entries[k].locations)
        ensures words[k].Records() == DistanceRecords(map[], map[], MaxValue, 0)
      {
        assert WordFollows(words[k], st.entries[k]);
      }
    }

    /** The vocabulary in insertion order, as iterating the source's `Map` yields it. */
    function InsertionOrder(): (ws: seq<Word>)
      reads this`words, this`wordOrder
      requires forall k :: k in wordOrder ==> k in words
      ensures |ws| == |wordOrder| && forall i :: 0 <= i < |ws| ==> ws[i] == words[wordOrder[i]]
    {
      var m, order := words, wordOrder;
      seq(|order|, i requires 0 <= i < |order| && order[i] in m => m[order[i]])
    }

    /** The bookkeeping of the pair loops, read back by key. */
    lemma RecordedInVocabulary(list: seq<Word>, s: seq<DistanceRecords>)
      requires Keyed()
      requires list == InsertionOrder() && KeysOf(list) == wordOrder
      requires Holds(list, s) && AllRecorded(wordOrder, s)
      ensures DistancesRecorded()
    {
      forall k | k in words ensures RecordedAmong(k, words[k].Records(), wordOrder) {
        IndexOfFinds(wordOrder, k);
        var i := IndexOf(wordOrder, k);
        assert words[k].Records() == list[i].Records() == s[i];
        assert RowOk(wordOrder, wordOrder[i], s[i]);
        forall k' | k' in s[i].byWord ensures k' in wordOrder {
          IndexOfFinds(wordOrder, k');
        }
        forall j | 0 <= j < |wordOrder| && wordOrder[j] != k
          ensures PairHolds(OrderedDistance(k, wordOrder[j], i < j), wordOrder[j], s[i].byWord, true)
        {
          assert PairHolds(PairDistance(wordOrder, i, j), wordOrder[j], s[i].byWord, true);
        }
      }
    }

    /**
     * What a recorded distance means: a word records another exactly when the engine,
     * given the earlier-inserted key first, did not give up; what it records is then their
     * Levenshtein distance, at most 10; and words more than 10 edits apart are never
     * recorded.
     */
    lemma RecordedDistance(k: string, k': string)
      requires Consistent() && DistancesRecorded()
      requires k in words && k' in words && k != k'
      ensures k' in words[k].distanceByWord
              <==> OrderedDistance(k, k', IndexOf(wordOrder, k) < IndexOf(wordOrder, k')) != ED.DistanceBeyond
      ensures k' in words[k].distanceByWord ==> words[k].distanceByWord[k'] == Lev(k, k') <= StatsMaxDist
      ensures Lev(k, k') > StatsMaxDist ==> k' !in words[k].distanceByWord
    {
      RunKeysNonEmpty(cfg, DocumentTokens(source));
      assert |k| > 0 && |k'| > 0;
      IndexOfFinds(wordOrder, k');
      var j := IndexOf(wordOrder, k');
      assert RecordedAmong(k, words[k].Records(), wordOrder);
      assert PairHolds(OrderedDistance(k, k', IndexOf(wordOrder, k) < j), k', words[k].distanceByWord, true);
      StatsDistanceExact(k, k');
      StatsDistanceExact(k', k);
      LevSymmetric(k, k');
    }

    /**
     * The constructor's parse: the literal exclusions, then the document line by line,
     * token by token, and the last sentence kept if it holds any token. `st` is the walk
     * the parse follows.
     */
    method Parse(text: string) returns (ghost st: SegState)
      requires wordExcludes == {} && words == map[] && wordOrder == [] && sentences == []
      modifies this`wordExcludes, this`words, this`wordOrder, this`sentences
      ensures st == LinesWalkFrom(cfg, Initial(), SplitLines(text), 0)
      ensures Parsed(st) && Keyed() && NoDistancesYet()
      ensures forall w :: w in words.Values ==> fresh(w)
    {
      var cur := new Sentence(0);
      CollectExcludes();
      var next;
      next, st := ParseLines(SplitLines(text), cur);
      Flush(next, st);
      FinishedParsed(st);
      DocumentOrder(cfg, text);
    }

    /** After the pair loops from empty bookkeeping, every word holds the engine's answers for the others. */
    lemma PairLoopsRecorded(list: seq<Word>, start: seq<DistanceRecords>)
      requires Keyed() && list == InsertionOrder() && KeysOf(list) == wordOrder
      requires |start| == |list| && forall i :: 0 <= i < |start| ==> start[i] == DistanceRecords(map[], map[], MaxValue, 0)
      requires Holds(list, RowsFrom(wordOrder, start, 0))
      ensures DistancesRecorded()
    {
      UniqueDistinct(wordOrder);
      NothingRecorded(wordOrder, start);
      RowsKeep(wordOrder, start, 0);
      RecordedInVocabulary(list, RowsFrom(wordOrder, start, 0));
    }

    /** The pair loops of the statistics pass, over the vocabulary in insertion order. */
    method RecordWordDistances()
      requires Keyed() && NoDistancesYet()
      modifies words.Values`distances, words.Values`distanceByWord, words.Values`rangeMin, words.Values`rangeMax
      ensures DistancesRecorded()
      ensures forall k :: k in words ==> words[k].Occurrence() == old(words[k].Occurrence())
    {
      var list := InsertionOrder();
      assert KeysOf(list) == wordOrder;
      UniqueDistinct(wordOrder);
      ghost var start := Snapshot(list);
      RecordDistances(list, start);
      PairLoopsRecorded(list, start);
    }

    /** The sort of the statistics pass: the vocabulary by non-increasing frequency, a stable sort. */
    method RankWords()
      requires Keyed()
      modifies this`wordsFrequencyDesc, this`rank
      ensures Ranked()
    {
      var list := InsertionOrder();
      var freqs := seq(|list|, i requires 0 <= i < |list| reads Elements(list) => list[i].frequency);
      var order := RankByFrequency(freqs);
      wordsFrequencyDesc := seq(|order|, p requires 0 <= p < |order| && order[p] < |list| => list[order[p]]);
      rank := order;
      forall a, b | 0 <= a < b < |wordsFrequencyDesc|
        ensures wordsFrequencyDesc[a].frequency > wordsFrequencyDesc[b].frequency
             || (wordsFrequencyDesc[a].frequency == wordsFrequencyDesc[b].frequency && rank[a] < rank[b])
      {
        assert Ahead(freqs, order[a], order[b]);
      }
    }

    /**
     * The statistics pass: the vocabulary ranked by frequency (most frequent first, ties
     * in insertion order), and for every pair of words the bounded engine's answer, the
     * earlier-inserted key first, recorded in both unless the engine gives up. The
     * occurrences of every word stay as they were.
     */
    method CalculateStats()
      requires Keyed() && NoDistancesYet()
      modifies this`wordsFrequencyDesc, this`rank
      modifies words.Values`distances, words.Values`distanceByWord, words.Values`rangeMin, words.Values`rangeMax
      ensures Keyed() && Ranked() && DistancesRecorded()
      ensures forall k :: k in words ==> words[k].Occurrence() == old(words[k].Occurrence())
    {
      RankWords();
      RecordWordDistances();
    }

    /** The statistics pass touches neither the sentences nor the occurrences of a word. */
    twostate lemma ParsedKept(st: SegState)
      requires old(Parsed(st))
      requires unchanged(this`wordExcludes, this`sentences, this`words, this`wordOrder)
      requires unchanged(old(sentences))
      requires forall k :: k in words ==> words[k].Occurrence() == old(words[k].Occurrence())
      ensures Parsed(st)
    {
    }

    /** The statistics pass after the parse: the parse still holds and no query is memoised. */
    method StatsAfterParse(ghost st: SegState)
      requires Parsed(st) && Keyed() && NoDistancesYet()
      modifies this`wordsFrequencyDesc, this`rank
      modifies words.Values`distances, words.Values`distanceByWord, words.Values`rangeMin, words.Values`rangeMax
      ensures Parsed(st) && Keyed() && Ranked() && DistancesRecorded()
      ensures highestMemo == old(highestMemo) && lowestMemo == old(lowestMemo)
    {
      label parsed:
      CalculateStats();
      ParsedKept@parsed(st);
    }

    /** The constructor's work: the parse, then the statistics pass. */
    method Build(text: string) returns (ghost st: SegState)
      requires wordExcludes == {} && words == map[] && wordOrder == [] && sentences == []
      modifies this`wordExcludes, this`words, this`wordOrder, this`sentences, this`wordsFrequencyDesc, this`rank
      ensures st == LinesWalkFrom(cfg, Initial(), SplitLines(text), 0)
      ensures Parsed(st) && Keyed() && Ranked() && DistancesRecorded()
      ensures highestMemo == old(highestMemo) && lowestMemo == old(lowestMemo)
    {
      st := Parse(text);
      StatsAfterParse(st);
    }

    // -------------------------------------------------------------------------------
    // Queries

    /** `get_sentence(i)`: the `i`-th sentence of the document, `undefined` out of range. */
    function GetSentence(i: int): (r: Option<Sentence>)
      reads this, sentences, words.Values
      ensures r.Some? <==> 0 <= i < |sentences|
      ensures Consistent() ==> (r.Some? <==> 0 <= i < |Segment(cfg, source)|)
      ensures Consistent() && r.Some? ==> r.value.index == i && TokensMatch(r.value.tokens, Segment(cfg, source)[i])
    {
      if 0 <= i < |sentences| then Some(sentences[i]) else None
    }

    /** `get_sentences()`: a copy of the list of sentences, in document order, linked to their neighbours. */
    function GetSentences(): (r: seq<Sentence>)
      reads this, sentences, words.Values
      ensures Consistent() ==>
        (|r| == |Segment(cfg, source)|
         && (forall i :: 0 <= i < |r| ==> r[i].index == i && TokensMatch(r[i].tokens, Segment(cfg, source)[i]))
         && (forall i :: 0 <= i < |r| - 1 ==> r[i].after == r[i + 1] && r[i + 1].before == r[i]))
    {
      sentences
    }

    /** `get_sentences_count()`: the number of sentences of the document. */
    function GetSentencesCount(): (n: nat)
      reads this, sentences, words.Values
      ensures Consistent() ==> n == |Segment(cfg, source)|
    {
      |sentences|
    }

    /** `get_words_count()`: the length of the frequency ranking, which is the number of distinct words. */
    function GetWordsCount(): (n: nat)
      reads this, sentences, words.Values
      ensures Consistent() ==> n == |words|
    {
      WordsCounted();
      |wordsFrequencyDesc|
    }

    /** The ranking holds every word once. */
    lemma WordsCounted()
      ensures Consistent() ==> |wordsFrequencyDesc| == |words|
    {
      if Consistent() {
        DistinctCard(wordOrder);
        assert Elements(wordOrder) == words.Keys;
      }
    }

    /**
     * `get_word(key)`: the word under the lower-cased key, `undefined` when there is none.
     * It is there exactly when the key occurs as a word of the document, and its frequency
     * is that number of occurrences.
     */
    function GetWord(key: string): (r: Option<Word>)
      reads this, sentences, words.Values
      ensures r.Some? <==> cfg.ops.lower(key) in words
      ensures Consistent() ==> (r.Some? <==> CountKey(cfg.ops.lower(key), Flatten(Segment(cfg, source))) > 0)
      ensures Consistent() && r.Some? ==>
        r.value.key == cfg.ops.lower(key) && r.value.frequency == CountKey(cfg.ops.lower(key), Flatten(Segment(cfg, source)))
    {
      var k := cfg.ops.lower(key);
      WordCount(cfg, source, k);
      if k in words then
        assert Consistent() ==> words[k].Occurrence() == OccurrencesAt(walk.entries[k].locations);
        Some(words[k])
      else
        None
    }

    /** The position `get_word_by_frequency_index` reads: from the end when not descending. */
    function RankPosition(index: int, descending: bool): int
      reads this
    {
      if descending then index else |wordsFrequencyDesc| - 1 - index
    }

    /**
     * `get_word_by_frequency_index(index, descending)`: the word at that place of the
     * frequency ranking, counted from the most frequent, or from the least frequent when
     * not descending; `undefined` out of range. Every word before it in that direction is
     * at least (descending) or at most (ascending) as frequent.
     */
    function GetWordByFrequencyIndex(index: int, descending: bool): (r: Option<Word>)
      reads this, sentences, words.Values
      ensures r.Some? <==> 0 <= RankPosition(index, descending) < |wordsFrequencyDesc|
      ensures Consistent() && r.Some? ==> r.value.key in words && words[r.value.key] == r.value
      ensures Consistent() && r.Some? && descending ==>
        forall j :: 0 <= j < |wordsFrequencyDesc| ==>
          (j < index ==> wordsFrequencyDesc[j].frequency >= r.value.frequency)
          && (j > index ==> wordsFrequencyDesc[j].frequency <= r.value.frequency)
      ensures Consistent() && r.Some? && !descending ==>
        forall j :: 0 <= j < |wordsFrequencyDesc| ==>
          (|wordsFrequencyDesc| - 1 - j < index ==> wordsFrequencyDesc[j].frequency <= r.value.frequency)
          && (|wordsFrequencyDesc| - 1 - j > index ==> wordsFrequencyDesc[j].frequency >= r.value.frequency)
    {
      var p := RankPosition(index, descending);
      if 0 <= p < |wordsFrequencyDesc| then Some(wordsFrequencyDesc[p]) else None
    }

    /**
     * `get_words_by_frequency(limit, highest)`: the keys of the first `limit` words of the
     * ranking (`slice(0, limit)`), or of its last `limit` words when not highest. A
     * remembered answer whose size equals `limit` is returned as it is; otherwise the
     * answer is computed and remembered.
     */
    method GetWordsByFrequency(limit: int, highest: bool) returns (r: set<string>)
      requires MemosSound()
      modifies this`highestMemo, this`lowestMemo
      ensures r == if highest then HighestKeys(KeysOf(wordsFrequencyDesc), limit) else LowestKeys(KeysOf(wordsFrequencyDesc), limit)
      ensures MemosSound()
      ensures highest ==> highestMemo == Some(r) && lowestMemo == old(lowestMemo)
      ensures !highest ==> lowestMemo == Some(r) && highestMemo == old(highestMemo)
    {
      if highest {
        if highestMemo.None? || |highestMemo.value| != limit {
          highestMemo := Some(HighestKeys(KeysOf(wordsFrequencyDesc), limit));
          HighestKeysStable(KeysOf(wordsFrequencyDesc), limit);
        }
        r := highestMemo.value;
      } else {
        if lowestMemo.None? || |lowestMemo.value| != limit {
          lowestMemo := Some(LowestKeys(KeysOf(wordsFrequencyDesc), limit));
          LowestKeysStable(KeysOf(wordsFrequencyDesc), limit);
        }
        r := lowestMemo.value;
      }
    }

    /** A word ranked earlier is at least as frequent as one ranked later. */
    lemma RankedAhead(a: nat, b: nat)
      requires Ranked() && a < b < |wordsFrequencyDesc|
      ensures wordsFrequencyDesc[a].frequency >= wordsFrequencyDesc[b].frequency
    {
    }

    /** The vocabulary's word under the key at position `p` of the ranking's keys. */
    lemma RankedWordAt(p: nat)
      requires Keyed() && Ranked() && p < |wordsFrequencyDesc|
      ensures KeysOf(wordsFrequencyDesc)[p] in words && words[KeysOf(wordsFrequencyDesc)[p]] == wordsFrequencyDesc[p]
    {
      assert wordsFrequencyDesc[p] == words[wordOrder[rank[p]]];
    }

    /**
     * For `n >= 0` the highest-frequency keys are `min(n, count)` words of the vocabulary,
     * each at least as frequent as every word left out.
     */
    lemma HighestKeysMostFrequent(n: int)
      requires Keyed() && Ranked() && n >= 0
      ensures var h := HighestKeys(KeysOf(wordsFrequencyDesc), n);
        |h| == (if n <= |words| then n else |words|) && h <= words.Keys
        && forall k, k' :: k in h && k' in words && k' !in h ==> words[k].frequency >= words[k'].frequency
    {
      var ks := KeysOf(wordsFrequencyDesc);
      RankedKeys();
      DistinctCard(ks);
      SliceCount(ks, n);
      SliceHead(ks, n);
      var m := if n <= |ks| then n else |ks|;
      var h := HighestKeys(ks, n);
      assert forall k :: k in h <==> k in ks[..m];
      forall k, k' | k in h && k' in words && k' !in h ensures words[k].frequency >= words[k'].frequency {
        IndexOfFinds(ks, k);
        IndexOfFinds(ks, k');
        var a, b := IndexOf(ks, k), IndexOf(ks, k');
        PrefixPositions(ks, m, a, b);
        RankedAhead(a, b);
        RankedWordAt(a);
        RankedWordAt(b);
      }
    }

    /**
     * For `n >= 0` the lowest-frequency keys are `min(n, count)` words of the vocabulary,
     * each at most as frequent as every word left out.
     */
    lemma LowestKeysLeastFrequent(n: int)
      requires Keyed() && Ranked() && n >= 0
      ensures var h := LowestKeys(KeysOf(wordsFrequencyDesc), n);
        |h| == (if n <= |words| then n else |words|) && h <= words.Keys
        && forall k, k' :: k in h && k' in words && k' !in h ==> words[k].frequency <= words[k'].frequency
    {
      var ks := KeysOf(wordsFrequencyDesc);
      RankedKeys();
      DistinctCard(ks);
      SliceCount(ks, n);
      var o := if |ks| - n >= 0 then |ks| - n else 0;
      var h := LowestKeys(ks, n);
      assert forall k :: k in h <==> k in ks[o..];
      forall k, k' | k in h && k' in words && k' !in h ensures words[k].frequency <= words[k'].frequency {
        IndexOfFinds(ks, k);
        IndexOfFinds(ks, k');
        var a, b := IndexOf(ks, k), IndexOf(ks, k');
        SuffixPositions(ks, o, a, b);
        RankedAhead(b, a);
        RankedWordAt(a);
        RankedWordAt(b);
      }
    }

    /**
     * The ranking orders the words by their number of occurrences in the document, most
     * first: each entry's frequency is that count.
     */
    lemma RankingCounts()
      requires Consistent()
      ensures forall p :: 0 <= p < |wordsFrequencyDesc| ==>
        wordsFrequencyDesc[p].frequency == CountKey(wordsFrequencyDesc[p].key, Flatten(Segment(cfg, source)))
      ensures forall a, b :: 0 <= a < b < |wordsFrequencyDesc| ==>
        CountKey(wordsFrequencyDesc[a].key, Flatten(Segment(cfg, source))) >= CountKey(wordsFrequencyDesc[b].key, Flatten(Segment(cfg, source)))
    {
      RankedKeys();
      forall p | 0 <= p < |wordsFrequencyDesc|
        ensures wordsFrequencyDesc[p].frequency == CountKey(wordsFrequencyDesc[p].key, Flatten(Segment(cfg, source)))
      {
        var k := wordsFrequencyDesc[p].key;
        WordCount(cfg, source, k);
        assert words[k].Occurrence() == OccurrencesAt(walk.entries[k].locations);
      }
    }

    /** The ranking's keys: each word of the vocabulary once, each entry the vocabulary's word under its key. */
    lemma RankedKeys()
      requires Keyed() && Ranked()
      ensures Distinct(KeysOf(wordsFrequencyDesc)) && Elements(KeysOf(wordsFrequencyDesc)) == words.Keys
      ensures forall p :: 0 <= p < |wordsFrequencyDesc| ==> words[wordsFrequencyDesc[p].key] == wordsFrequencyDesc[p]
    {
      var ks := KeysOf(wordsFrequencyDesc);
      forall p | 0 <= p < |ks| ensures ks[p] == wordOrder[rank[p]] {
        assert wordsFrequencyDesc[p] == words[wordOrder[rank[p]]];
      }
      forall a, b | 0 <= a < b < |ks| ensures ks[a] != ks[b] {
        assert rank[a] != rank[b];
      }
      var range := Below(|wordOrder|);
      DistinctWithin(rank, range);
      forall k | k in words ensures k in Elements(ks) {
        var i :| 0 <= i < |wordOrder| && wordOrder[i] == k;
        assert i in range;
        var p :| 0 <= p < |rank| && rank[p] == i;
        assert ks[p] == k;
      }
    }

    /**
     * Reads the document into sentences and a vocabulary, then runs the statistics pass.
     * The sentences and the vocabulary are those of the walk `Run` over the document's
     * tokens; no query has been answered yet.
     */
    constructor (source: string, cfg: Config)
      ensures this.cfg == cfg && this.source == source
      ensures Consistent() && DistancesRecorded() && MemosSound()
      ensures highestMemo == None && lowestMemo == None
    {
      this.cfg := cfg;
      this.source := source;
      walk := Run(cfg, DocumentTokens(source));
      wordExcludes := {};
      words := map[];
      wordOrder := [];
      sentences := [];
      wordsFrequencyDesc := [];
      rank := [];
      highestMemo := None;
      lowestMemo := None;
      new;
      ghost var st := Build(source);
      DocumentWalk(cfg, source);
      RankedKeys();
    }
  }
}
