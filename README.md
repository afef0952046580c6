# quizcard-generator core, modelled in Dafny

The quiz card generator reads a plain-text document and turns it into fill-in-the-blank
cards.

- **Constructor.** The `QuizCardGenerator` constructor reads the text line by line and
  splits each line on whitespace runs.
  - It gives each token a key: the word-exclusion characters are removed and the rest is
    lower-cased.
  - It interns every token that counts as a word in a vocabulary of `Word` objects, one per
    key.
  - It groups the tokens into `Sentence` objects. A sentence ends after a token with `.`,
    `?` or `!`, or at the token maximum. It is committed only once it has enough distinct
    words.
- **Statistics pass.** It ranks the vocabulary by frequency with a stable sort. Then it
  runs the bounded Wagner–Fischer edit distance engine on every pair of words, the
  earlier-inserted key first and with bound 10. Unless the engine gives up, it records the
  answer in both words.
- **Queries.** The generator answers queries over sentences, words and the frequency
  ranking.
- **Anki notes.** Each word of a sentence becomes a numbered cloze `{{cN::value}}`, and each
  cloze gets the word's closest words as answer choices.

Modules, one file each:

- `text.dfy` (`Text`): JavaScript's `split` on the line-break class and on whitespace runs,
  `join`, and the sentence-terminal test.
- `segmentation.dfy` (`Segmentation`): the constructor's walk as a pure reference fold.
  - `Step` is one token and `Run` the whole document.
  - The lemmas state what the segmentation promises: token coverage, the sealing rule,
    locations, frequencies, and first-appearance order.
- `levenshtein.dfy` (`Levenshtein`): Levenshtein distance by the prefix recurrence, with its
  properties and the repository's unit-test values.
- `edit_distance.dfy` (`EditDistance`): `WordEditDistance.edit_distance` as a method over a
  flat `array<int>`. It is proved equal to `BoundedDistance`, which characterises the
  per-row early stop exactly.
- `vocabulary.dfy` (`Vocabulary`): the classes `Word` and `Sentence`.
  - `Word` keeps its occurrences, distance buckets, per-word distance map and distance range.
  - `Sentence` keeps its tokens, word map and neighbour links.
- `ranking.dfy` (`Ranking`): the stable frequency ranking (insertion sort) and its uniqueness.
- `stats.dfy` (`Stats`): the pair loops of `calculate_stats`, proved against folds of a
  per-pair update.
- `generator.dfy` (`Generator`): the `QuizCardGenerator` class.
  - Its constructor is proved to follow `Segmentation.Run` token by token.
  - It also holds the statistics pass and the queries.
- `anki.dfy` (`Anki`): `AnkiCloze.toString` with a parser that inverts it, and
  `AnkiNote.from_sentence`.
- `collections.dfy`, `wrappers.dfy`: sequence helpers and `Option`.

Where the code and its documentation differ, the model follows the code:

- **Sentence word minimum.** The constructor assigns `sentence_word_count_min` from its
  argument even when that argument is absent, which drops the default of 3. The minimum is
  therefore an `Option`, and `None` never defers a sentence.
- **Empty keys.** The edit distance of an empty key and any other key is 0 (`EmptyKeyDistance`),
  not its length. Word keys are never empty, so the generator never meets this case.

## Model

| member | source | states |
|---|---|---|
| Text.SplitLines | quizcard_generator.ts:73 | the split always yields at least one line (an empty text is one empty line) |
| Text.SplitLinesClean | quizcard_generator.ts:73 | no piece of the line split contains `\n` or `\r` |
| Text.SplitWsClean | quizcard_generator.ts:75 | no piece of the whitespace split contains a whitespace character |
| Text.SplitWsJoin | quizcard_generator.ts:417-419 | clean tokens joined by one space split back into exactly those tokens (join and split are inverse) |
| Segmentation.DocumentTokens | quizcard_generator.ts:73-77 | every token the document yields is non-empty and free of whitespace |
| Segmentation.PieceOf | quizcard_generator.ts:80-127 | a token becomes a word exactly when `IsWord` holds (a non-empty key, no literal exclusion, no pattern match); a word's key is the token's stripped, lower-cased key and is non-empty; the raw text is kept |
| Segmentation.Register | quizcard_generator.ts:104-119 | recording a key: a new key is added to the vocabulary and appended to the insertion order; an existing key keeps its place; the location is appended to that key's locations |
| Segmentation.Appended | quizcard_generator.ts:118-127 | a token joins the open sentence as its piece; the committed sentences are unchanged |
| Segmentation.AppendedWord | quizcard_generator.ts:103-122 | a word token is registered at the open sentence's next token position and then joins the sentence |
| Segmentation.AppendedPlain | quizcard_generator.ts:124-127 | a plain token only joins the open sentence; the vocabulary is unchanged |
| Segmentation.StepPieces | quizcard_generator.ts:119-135 | after one token, the pieces of all sentences are the old ones plus that token's piece |
| Segmentation.StepOrder | quizcard_generator.ts:104-116 | the insertion order gains a word's key exactly when the key is new |
| Segmentation.StepEntry | quizcard_generator.ts:104-119 | how one token changes one key's record: the key is present afterwards exactly when it was or the token is that word; the first raw text stays; a location is appended exactly for that key |
| Segmentation.StepShape | quizcard_generator.ts:129-135 | one step keeps the shape: every committed sentence sealed, and every earlier ending point of every sentence deferred |
| Segmentation.StepCounted | quizcard_generator.ts:509 | one step keeps frequency equal to the occurrence count and the order equal to first appearance |
| Segmentation.StepCovers | quizcard_generator.ts:119-135 | one step keeps the raw texts of all pieces equal to the raw texts of the tokens read |
| Segmentation.StepIndexed | quizcard_generator.ts:491-507 | one step keeps the vocabulary indexed: every word has a first raw text, its locations point at its tokens in document order, and every word token has a location |
| Segmentation.RunInvariant | quizcard_generator.ts:73-141 | after any number of tokens the sentence shape, the location index and the counts hold, and the pieces are the tokens read so far |
| Segmentation.SegmentCovers | quizcard_generator.ts:73-146 | the retained sentences, concatenated in order, are exactly the document's non-empty tokens in line and token order |
| Segmentation.SegmentShape | quizcard_generator.ts:129-146 | no retained sentence is empty; every sentence but the last ended at a terminal token or the token maximum with enough distinct words; no earlier ending point was passed unless the sentence had too few distinct words there |
| Segmentation.RunLocations | quizcard_generator.ts:491-507 | each recorded location names a sentence and a token position that hold that word with that raw text |
| Segmentation.RunKeysNonEmpty | quizcard_generator.ts:88-94 | every key in the vocabulary after any number of tokens is non-empty |
| Segmentation.RunFrequency | quizcard_generator.ts:509 | a word's frequency is its number of occurrences in the retained sentences, and 0 for keys not in the vocabulary |
| Segmentation.LocationIndexFinds | quizcard_generator.ts:507 | with locations in document order, the (sentence, token) index finds the location recorded at that position |
| Segmentation.RawAtToken | quizcard_generator.ts:531-547 | at every word token of the segmentation, the word's location index gives back the raw text seen there |
| Segmentation.FirstKeysDistinct | quizcard_generator.ts:104-116 | the first-appearance order has no repeated key |
| Segmentation.RunOrder | quizcard_generator.ts:104-116 | the vocabulary's insertion order lists each key once, in order of first appearance, and exactly the vocabulary's keys |
| Generator.DocumentWalk | quizcard_generator.ts:73-141 | the constructor's line-by-line, token-by-token walk equals the walk over the document's token sequence |
| Generator.DocumentOrder | quizcard_generator.ts:104-116 | after the parse, the insertion order names each vocabulary key exactly once |
| Generator.WordCount | quizcard_generator.ts:104-119 | a key is in the vocabulary exactly when it occurs as a word of the document, and its location count is its number of occurrences |
| Generator.SliceCount | quizcard_generator.ts:267-273 | the first `n` and the last `n` keys of a repetition-free ranking are `min(n, count)` distinct keys |
| Generator.HighestKeysStable | quizcard_generator.ts:266-269 | asking for the highest keys again, with the size of the last answer, gives the same set (the memo check is sound) |
| Generator.LowestKeysStable | quizcard_generator.ts:272-275 | the same for the lowest keys |
| Generator.QuizCardGenerator.InternWord | quizcard_generator.ts:104-116 | an existing key returns its word and leaves the vocabulary unchanged; a new key creates a word with this raw text and no locations, adds it, and appends the key to the insertion order |
| Generator.QuizCardGenerator.Occur | quizcard_generator.ts:119 | the word gains one location with this token's raw text, line, index, sentence index and token position; no sentence changes |
| Generator.QuizCardGenerator.RecordOccurrence | quizcard_generator.ts:118-119 | recording the occurrence makes the word objects follow the walk with that occurrence registered |
| Generator.QuizCardGenerator.LocateWord | quizcard_generator.ts:103-119 | the key's word, fresh only when the key was new, with its occurrence recorded; the vocabulary then follows the registered walk state |
| Generator.QuizCardGenerator.RecordWord | quizcard_generator.ts:103-122 | a word occurrence keeps the whole heap following the walk with the occurrence registered; old words are kept and new ones are fresh |
| Generator.QuizCardGenerator.AppendToOpen | quizcard_generator.ts:121-127 | the token joins the open sentence, and the heap follows the walk with that piece appended |
| Generator.QuizCardGenerator.PushOpen | quizcard_generator.ts:211 | the open sentence is appended to the sentence list, and the heap follows the committed walk state |
| Generator.QuizCardGenerator.OpenNext | quizcard_generator.ts:214-218 | a fresh sentence opens with the next index, linked both ways to the last committed one |
| Generator.QuizCardGenerator.Attach | quizcard_generator.ts:215-216 | linking the new sentence after the last committed one restores the link invariants |
| Generator.QuizCardGenerator.NextSentence | quizcard_generator.ts:201-219 | below the word minimum the same sentence is returned and nothing is committed; otherwise it is pushed and a fresh, linked sentence opens |
| Generator.QuizCardGenerator.AddToOpen | quizcard_generator.ts:79-127 | a token joins the open sentence, as the vocabulary's word when it is a word; the heap follows `Appended` |
| Generator.QuizCardGenerator.EndSentence | quizcard_generator.ts:129-135 | the sentence is offered to `next_sentence` exactly when it reached the token maximum or its token has terminal punctuation; the vocabulary is unchanged |
| Generator.QuizCardGenerator.ProcessToken | quizcard_generator.ts:76-140 | one document token moves the heap from following `st` to following `Step(st, t)` |
| Generator.QuizCardGenerator.CollectExcludes | quizcard_generator.ts:45-56 | the literal exclusions are stored lower-cased |
| Generator.QuizCardGenerator.Flush | quizcard_generator.ts:143-146 | the last sentence is kept if it has any token, whatever its word count, and the finished state holds |
| Generator.QuizCardGenerator.ParsePiece | quizcard_generator.ts:76-77 | an empty piece is skipped, and a non-empty one is one step of the walk |
| Generator.QuizCardGenerator.ParseLine | quizcard_generator.ts:75-140 | one line's pieces, in order, move the heap along the walk over that line |
| Generator.QuizCardGenerator.ParseLines | quizcard_generator.ts:73-141 | all lines, in order, move the heap from the initial state to the line-by-line walk |
| Generator.QuizCardGenerator.FinishedParsed | quizcard_generator.ts:143-148 | at the end, the sentences and vocabulary are the walk's, and no word has a distance yet |
| Generator.QuizCardGenerator.Parse | quizcard_generator.ts:39-148 | the parse yields the walk's sentences and vocabulary, with the words keyed and none holding a distance |
| Generator.QuizCardGenerator.RecordedInVocabulary | quizcard_generator.ts:178-190 | the pair loops' per-position bookkeeping, read back by key, is the vocabulary-wide distance invariant |
| Generator.QuizCardGenerator.PairLoopsRecorded | quizcard_generator.ts:178-190 | starting from empty bookkeeping, the pair loops leave every word holding, under each other word's key, the engine's answer for the two keys, earlier-inserted key first, bound 10, unless the engine gave up; nothing else is recorded |
| Generator.QuizCardGenerator.RecordedDistance | quizcard_generator.ts:178-190 | after construction, word `k` records word `k'` exactly when the engine, given the earlier-inserted key first, does not give up; a recorded value is their exact distance and at most 10; words more than 10 apart never record each other |
| Generator.QuizCardGenerator.RecordWordDistances | quizcard_generator.ts:178-190 | after the pair loops, every word records, under each other word's key, the engine's answer for the two keys, earlier-inserted key first, bound 10, unless the engine gave up, and nothing else; occurrences are unchanged |
| Generator.QuizCardGenerator.RankWords | quizcard_generator.ts:169-175 | the ranking is the vocabulary by non-increasing frequency, ties in insertion order |
| Generator.QuizCardGenerator.CalculateStats | quizcard_generator.ts:153-193 | the statistics pass leaves the vocabulary ranked and, for every pair, the engine's answer for the two keys, earlier-inserted key first, bound 10, recorded in both words unless the engine gave up; occurrences are unchanged |
| Generator.QuizCardGenerator.StatsAfterParse | quizcard_generator.ts:150 | the statistics pass after the parse keeps the parsed sentences and vocabulary, and memoises no query |
| Generator.QuizCardGenerator.Build | quizcard_generator.ts:39-150 | the constructor's work: the walk's sentences and vocabulary, ranked, with the engine's answer for the two keys, earlier-inserted key first, bound 10, recorded for every pair unless the engine gave up |
| Generator.QuizCardGenerator.constructor | quizcard_generator.ts:39-151 | a new generator is consistent with the segmentation of its text (sentences, vocabulary, ranking), records for every pair the engine's answer for the two keys, earlier-inserted key first, bound 10, unless the engine gave up, and memoises no query |
| Generator.QuizCardGenerator.GetSentence | quizcard_generator.ts:221-223 | defined exactly for indices of the segmentation; the `i`-th sentence has index `i` and holds the `i`-th segment's tokens |
| Generator.QuizCardGenerator.GetSentences | quizcard_generator.ts:225-227 | one sentence per segment, in order, each with its own index and tokens, linked to its neighbours both ways |
| Generator.QuizCardGenerator.GetSentencesCount | quizcard_generator.ts:229-231 | the number of segments of the document |
| Generator.QuizCardGenerator.GetWordsCount | quizcard_generator.ts:233-235 | the length of the ranking equals the number of distinct words |
| Generator.QuizCardGenerator.WordsCounted | quizcard_generator.ts:233-235 | the ranking holds each vocabulary word once |
| Generator.QuizCardGenerator.GetWord | quizcard_generator.ts:237-243 | present exactly when the lower-cased key occurs as a word of the document; the word has that key, and its frequency is the number of occurrences |
| Generator.QuizCardGenerator.GetWordByFrequencyIndex | quizcard_generator.ts:245-251 | defined exactly in range (from the end when not descending: `n - 1 - index`); the result is a vocabulary word, with every word before it at least (descending) or at most (ascending) as frequent |
| Generator.QuizCardGenerator.GetWordsByFrequency | quizcard_generator.ts:253-277 | the keys of the first `limit` ranked words, or of the last `limit` when not highest, whether a remembered answer is reused or not; the answer is remembered and the memo stays sound |
| Generator.QuizCardGenerator.RankedAhead | quizcard_generator.ts:170-174 | a word ranked earlier is at least as frequent as one ranked later |
| Generator.QuizCardGenerator.RankedWordAt | quizcard_generator.ts:174 | each ranked entry is the vocabulary's word under its key |
| Generator.QuizCardGenerator.HighestKeysMostFrequent | quizcard_generator.ts:265-269 | for `n >= 0`, the highest keys are `min(n, count)` vocabulary keys, each at least as frequent as every key left out |
| Generator.QuizCardGenerator.LowestKeysLeastFrequent | quizcard_generator.ts:271-276 | for `n >= 0`, the lowest keys are `min(n, count)` vocabulary keys, each at most as frequent as every key left out |
| Generator.QuizCardGenerator.RankingCounts | quizcard_generator.ts:170-174 | each ranked word's frequency is its occurrence count, and the ranking is non-increasing in that count |
| Generator.QuizCardGenerator.RankedKeys | quizcard_generator.ts:174 | the ranking's keys are exactly the vocabulary's keys, each once |
| Ranking.RankByFrequency | quizcard_generator.ts:170-174 | the result is a permutation of the positions, ordered by non-increasing frequency with ties in original order (what a stable sort with `w2 - w1` yields) |
| Ranking.InsertionPoint | quizcard_generator.ts:174 | the insertion point separates the entries ranked ahead of the new one from those ranked behind it |
| Ranking.RankingUnique | quizcard_generator.ts:170-174 | two rankings of the same positions are equal: the stable order is unique |
| Stats.StatsDistanceExact | quizcard_generator.ts:187 | for non-empty keys, the statistics pass's answer is -1 or the exact distance at most 10, and keys more than 10 apart always give -1 |
| Stats.NothingRecorded | quizcard_generator.ts:457-466 | new words, with empty buckets and range `[MAX_VALUE, 0]`, satisfy the loop invariants before the first pair |
| Stats.RecordOk | quizcard_generator.ts:606-622 | recording a new key at a non-negative distance keeps a word's records consistent |
| Stats.PairStep | quizcard_generator.ts:186-187 | visiting pair `(a, b)` records exactly that pair and keeps every record consistent |
| Stats.PairsStep | quizcard_generator.ts:185-187 | visiting pair `(a, b)` moves the bookkeeping from "exactly the pairs before `(a, b)` recorded" to "exactly the pairs up to `(a, b)` recorded" |
| Stats.RowsStep | quizcard_generator.ts:186-187 | visiting a pair that neither word has recorded yet keeps every word's buckets, map and range in agreement |
| Stats.RowDone | quizcard_generator.ts:185 | the end of row `a` is the start of row `a + 1` |
| Stats.RowsDone | quizcard_generator.ts:183 | after the last row every unordered pair has been visited |
| Stats.RowKeeps | quizcard_generator.ts:185-188 | the rest of a row keeps the bookkeeping exact |
| Stats.RowsKeep | quizcard_generator.ts:183-189 | the remaining rows record, for exactly the pairs the engine does not give up on, its answer with the earlier key first |
| Stats.VisitPair | quizcard_generator.ts:186-187 | the words' bookkeeping becomes `AfterPair`: both words record the engine's answer for their keys, the earlier one first and bound 10, unless it gives up |
| Stats.VisitRow | quizcard_generator.ts:185-188 | the inner loop computes the fold `RowFrom` over the pairs `(a, b)` with `b > a` |
| Stats.RecordDistances | quizcard_generator.ts:183-189 | the nested loops compute the fold `RowsFrom` over every unordered pair |
| Vocabulary.Word.constructor | quizcard_generator.ts:473-478 | a new word has its key and raw text, no locations, frequency 0, no distances, and range `[MAX_VALUE, 0]` |
| Vocabulary.Word.AddLocation | quizcard_generator.ts:491-510 | one location is appended, with the raw text (or the word's own), the sentence index and the sentence's current token count; it is indexed by (sentence, token); frequency goes up by one; the invariant is kept |
| Vocabulary.Word.GetRawString | quizcard_generator.ts:531-547 | without a location, the first raw text |
| Vocabulary.GetRawStringAt | quizcard_generator.ts:531-547 | at a recorded (sentence, token) position, the raw text seen there |
| Vocabulary.Word.SetDistance | quizcard_generator.ts:606-622 | the per-word map gains the other key, its bucket gains it at the end, and the range widens to include the distance; the records stay in agreement |
| Vocabulary.RecordKeepsAgreement | quizcard_generator.ts:606-622 | adding a new key at a non-negative distance keeps buckets, per-word map and range in agreement |
| Vocabulary.AddRecord | quizcard_generator.ts:606-622 | after recording, the range includes the distance and each end either moves to it or stays |
| Vocabulary.AddToBucket | quizcard_generator.ts:609-614 | the bucket for `d` gains the key at its end (created when missing), and the other buckets are unchanged |
| Vocabulary.BucketsAfterAdd | quizcard_generator.ts:609-614 | after adding a new key, the buckets stay non-empty and repetition-free, and agree with the per-word map |
| Vocabulary.Word.GetWordsAtDistance | quizcard_generator.ts:630-633 | exactly the keys recorded at that distance, without repetition (empty when none) |
| Vocabulary.NearestAppend | quizcard_generator.ts:669-677 | keys at distance `d` after keys nearer than `d` keep the result nearest-first |
| Vocabulary.GatherStep | quizcard_generator.ts:669-680 | taking a whole bucket, or a selection that fills the count, carries the gathering invariant to the next distance |
| Vocabulary.GatherDone | quizcard_generator.ts:649 | when the loop stops, the result has `min(count, neighbours)` keys and leaves out no key nearer than one taken |
| Vocabulary.Word.GetClosestWords | quizcard_generator.ts:642-684 | distinct keys, never the word's own; exactly `min(count, neighbours)` of them (none without distances); nearest-first; no nearer key left out |
| Vocabulary.Word.EditDistance | quizcard_generator.ts:693-702 | the bounded engine's answer (`BoundedDistance`) for the keys, `w1`'s first; when it gives up nothing changes; otherwise each word records the other's key at that distance in its map, bucket and range, and valid records stay valid |
| Vocabulary.Sentence.constructor | quizcard_generator.ts:340-345 | a new sentence has its index, no tokens, no words and no neighbours |
| Vocabulary.Sentence.AddToken | quizcard_generator.ts:347-355 | the token is appended; a word is also set in the word map under its key; the links are unchanged |
| Vocabulary.Sentence.GetWordCount | quizcard_generator.ts:365-367 | the number of distinct word keys among the tokens |
| Vocabulary.Sentence.SetBefore | quizcard_generator.ts:377-379 | only `before` changes |
| Vocabulary.Sentence.SetAfter | quizcard_generator.ts:381-383 | only `after` changes |
| Vocabulary.Sentence.GetPrologue | quizcard_generator.ts:385-399 | empty for a count of 0 or no previous sentence; for a positive count, the previous sentence's last `n` tokens (all of them when it has fewer; `slice(-n)`), space-joined |
| Vocabulary.Sentence.GetEpilogue | quizcard_generator.ts:401-415 | empty for a count of 0 or no next sentence; for a positive count, the next sentence's first `n` tokens (all of them when it has fewer), space-joined |
| Vocabulary.TextRoundTrip | quizcard_generator.ts:417-429 | a sentence's text splits back into its tokens |
| Vocabulary.ContextRoundTrip | quizcard_generator.ts:417-429 | with a prologue and an epilogue, the text splits into the previous sentence's last `p` tokens, the sentence's tokens and the next sentence's first `e` tokens |
| EditDistance.ComputeEditDistance | quizcard_generator.ts:754-818 | the flat-array computation returns `BoundedDistance`: 0 for an empty key; -1 when some row's followed cell exceeds the bound; the Levenshtein distance otherwise |
| EditDistance.NewMatrix | quizcard_generator.ts:764-773 | the array has `h*w` cells, with the first row `0..w-1` and the first column `0..h-1` |
| EditDistance.CheapestMove | quizcard_generator.ts:791-799 | the cost is the minimum of insertion, deletion and substitution |
| EditDistance.FillRow | quizcard_generator.ts:783-805 | the inner loop writes row `y` by the recurrence from row `y-1`, touches no other cell, and returns the followed cell |
| EditDistance.ComputeRow | quizcard_generator.ts:783-805 | row `y` holds the Levenshtein distances of the prefixes, and `dist` is the row's followed cell |
| EditDistance.FillRows | quizcard_generator.ts:782-810 | the outer loop stops at the last row, or after the first row whose followed cell exceeds the bound (setting -1) |
| EditDistance.ExitState | quizcard_generator.ts:812-817 | the final test turns the loop's exit state into `BoundedDistance` |
| EditDistance.EdgeCells | quizcard_generator.ts:766-773 | the first row and column of the distance matrix count up from 0 |
| EditDistance.CellStep | quizcard_generator.ts:791-801 | each inner cell is the cheapest of its three moves |
| EditDistance.RowOfCells | quizcard_generator.ts:783-801 | a row computed from a row of matrix cells is the next row of matrix cells |
| EditDistance.FollowedIsLast | quizcard_generator.ts:802-804 | within a row, `dist` ends at the last cell that the diagonal / last-row / last-column test picks |
| EditDistance.ExactOrBeyond | quizcard_generator.ts:812-817 | for non-empty keys, the result is -1 or the exact distance, and in the second case it is at most the bound |
| EditDistance.BeyondWhenFar | quizcard_generator.ts:807-817 | keys farther apart than the bound always give -1 |
| EditDistance.RowValueBound | quizcard_generator.ts:761 | no followed cell exceeds the longer key's length, so the default bound never aborts |
| EditDistance.DefaultBoundIsExact | quizcard_generator.ts:761 | without `max_dist` the result is the exact Levenshtein distance of two non-empty keys |
| EditDistance.DefaultBoundSymmetric | quizcard_generator.ts:761 | without `max_dist` the result does not depend on the order of the keys |
| EditDistance.EmptyKeyDistance | quizcard_generator.ts:779-813 | an empty key gives 0 against any key (-1 under a negative bound) |
| EditDistance.EarlyAbortMissesDistance | quizcard_generator.ts:802-809 | "xabc" and "abc" are one edit apart, yet under bound 1 the code as written returns -1 |
| EditDistance.EarlyAbortShape | quizcard_generator.ts:802-809 | for a key `[x, p, q, r]` with `x != p` and `p != q`, and the key `[p, q, r]`, the two are one edit apart, yet under bound 1 the code as written returns -1 |
| EditDistance.ArgumentOrderMatters | quizcard_generator.ts:802-809 | under bound 1, "ab" against "bab" gives -1 while "bab" against "ab" gives 1: the answer depends on the order of the keys |
| EditDistance.IntendedWhenNoAbort | quizcard_generator.ts:752 | whenever no row stops early, the code as written returns the documented result |
| EditDistance.ComputeEditDistanceCorrected | quizcard_generator.ts:752-818 | without the per-row stop, the result is the distance when it is within the bound and -1 otherwise, as documented |
| Levenshtein.LevSymmetric | quizcard_generator.ts:747-752 | the distance is symmetric |
| Levenshtein.LevZeroIffEqual | quizcard_generator.ts:747-752 | the distance is 0 exactly when the strings are equal |
| Levenshtein.LevAtMostLonger | quizcard_generator.ts:761 | the distance never exceeds the longer length |
| Levenshtein.LevAtLeastLengthGap | quizcard_generator.ts:747-752 | the distance is at least the difference of the lengths |
| Levenshtein.LevSteps | quizcard_generator.ts:791-799 | each of the three moves bounds the distance from above |
| Levenshtein.LevLowerSteps | quizcard_generator.ts:791-799 | the distance is one of the three moves |
| Levenshtein.AcornAcorns | tests/test.ts:9 | distance("acorn", "acorns") = 1 |
| Levenshtein.AcornCorn | tests/test.ts:10 | distance("acorn", "corn") = 1 |
| Levenshtein.AcornO | tests/test.ts:11 | distance("acorn", "o") = 4 |
| Levenshtein.AcornHorn | tests/test.ts:12 | distance("acorn", "horn") = 2 |
| Levenshtein.HornAcorn | tests/test.ts:13 | distance("horn", "acorn") = 2 |
| Anki.NatToStringCanonical | anki/anki_generator.ts:162 | a printed number is a canonical numeral (digits, no leading zero) |
| Anki.ParseNatToString | anki/anki_generator.ts:162 | reading a printed number gives the number back |
| Anki.NatToStringParse | anki/anki_generator.ts:162 | printing the value of a canonical numeral gives the numeral back |
| Anki.HintRoundTrip | anki/anki_generator.ts:161 | a value without `:` and its hint suffix split back into value and hint |
| Anki.BodyRoundTrip | anki/anki_generator.ts:162 | the text between `{{c` and `}}` reads back as number, value and hint |
| Anki.ClozeRoundTrip | anki/anki_generator.ts:160-163 | the string of a cloze whose value has no `:` parses back to its number, value and hint |
| Anki.BodyExact | anki/anki_generator.ts:162 | whatever reads as number, value and hint is exactly the body printed for them, and the value has no `:` |
| Anki.ParseClozeExact | anki/anki_generator.ts:160-163 | whatever parses as a cloze is exactly the string of that cloze, and its value has no `:` (the format is unambiguous) |
| Anki.ClozeClean | anki/anki_generator.ts:160-163 | the cloze of a clean value without a hint is one whitespace-free piece |
| Anki.FromSentence | anki/anki_generator.ts:28-51 | the text is one piece per token joined by single spaces; clozes are numbered 1..k over the word tokens in order, each with the word's first raw text and key; the choices' keys are exactly the clozes; each cloze's choices are its word's closest words (at most 4, never its own key) |
| Anki.AddToken | anki/anki_generator.ts:34-49 | one pass of the loop extends the text, clozes, choices and cloze counter exactly as `NoteSoFar` for one more token |
| Anki.ChoicesStep | anki/anki_generator.ts:37-44 | a word's cloze, numbered next, and its closest words extend a consistent cloze/choices pair |
| Anki.NoteStep | anki/anki_generator.ts:34-49 | one more token adds its piece (cloze string or text), and its word when it is one |
| Anki.PieceAt | anki/anki_generator.ts:34-49 | the `i`-th piece is the token's text, or the cloze of its word numbered by the words before it plus one |
| Anki.WordAt | anki/anki_generator.ts:32-40 | cloze number `k` belongs to the `k`-th word token |
| Anki.NoteTextSplits | anki/anki_generator.ts:51 | with clean tokens, splitting the note text on whitespace gives back one piece per token |
| Anki.NoteAnswers | anki/anki_generator.ts:37-47 | revealing every cloze restores the sentence's printed tokens (no word's raw text holds `:`, and no plain token reads as a cloze) |

## Left out

- Floating point: word probabilities (`update_probability`), edit-distance `variance`, `get_variance` and `WordEditDistance.compare`.
- `Percentage` limits of `get_words_by_frequency` (`Math.ceil` of a proportion). `Percentage`, `regexp_word_exclude` and `sort_random` are imported from `misc.ts`, which does not define them, so they are not part of this model.
- Generator.QuizCardGenerator.GetWordsByFrequency: takes a whole-number limit only, because a percentage limit needs floating point.
- Key stripping with `regexp_word_exclude`, `toLowerCase`, and the combined user exclusion regex are parameters (`TextOps`, `Exclude.Pattern`), not regex engines. The model does not state what characters they remove or match.
- `case_sensitive` is the constant `false` in the source, so keys are always lower-cased and the flag has no parameter.
- Vocabulary.Word.GetClosestWords: the `random_probability` injection loop is left out, because it draws `Math.random`.
- Vocabulary.Word.GetClosestWords: the `sort_random` shuffle of an over-full bucket is an arbitrary choice of keys from that bucket, and the in-place reordering of the bucket is not modelled.
- Vocabulary.Word.GetRawString: the contract covers only the call without a location. A call at a location is stated by `Vocabulary.GetRawStringAt`, given locations in document order.
- The string keys `s<i>-t<j>` of `sentence_locations` are modelled as pairs `(sentence, token)`.
- `Sentence.toString` with a zero or negative prologue or epilogue count is the plain join. `get_prologue` with a negative count is outside the model's contract.
- The `Sentence.source` field, `get_source_url`, `get_words`, `get_tokens` and `is_empty` hold no behaviour beyond their fields. `Sentence.source` and `get_source_url` are not modelled. `is_empty` is modelled as `IsEmpty` without a contract.
- Anki.ClozeRoundTrip: requires a value without `:`, because the format splits value from hint at the first `:`. Anki's own hint syntax is not modelled.
- Anki.FromSentence: the console logging is left out. The second call to `get_closest_words` is modelled as one call. With a full bucket the shuffle makes the two calls differ, so what is logged can differ from what is stored.
- `AnkiNote.export` (file streams, dates, a random sort), the note tags and the separator constants: I/O.
- `generate_anki_notes`: it passes options that `from_sentence` does not take, so they have no effect.
- All console logging, `Word.toJSON`, the entry-point import block, the CLI, the templates and the build script.
- `calculate_stats` runs its three parts as promises. The model runs the sort and then the pair loops in sequence; neither reads what the other writes.
- Strings are sequences of Unicode code points, not of JavaScript's UTF-16 code units. A character outside the Basic Multilingual Plane counts once in lengths, comparisons, slices and edit distances, where the source counts two code units; "😀a" and "a" are one edit apart here and two in the source.
- Integers are unbounded. The source's numbers are doubles, and the counts and distances here stay far below 2^53.

## Findings

| source | as written | input that shows it | evidently intended | confidence | as-written member | corrected member |
|---|---|---|---|---|---|---|
| quizcard_generator.ts:802-809 | after each row, `dist` holds that row's diagonal cell (or the last-row or last-column cell); the computation stops with -1 when that cell exceeds `max_dist` | keys "xabc" and "abc" with `max_dist` 1: the distance is 1, but row 2's diagonal cell is 2, so the result is -1; the stop also makes the answer depend on argument order ("ab", "bab" gives -1, "bab", "ab" gives 1) | -1 only when the Levenshtein distance exceeds `max_dist`, as the method's documentation states | not executed | EditDistance.EarlyAbortMissesDistance | EditDistance.ComputeEditDistanceCorrected |

The generator, `Word.EditDistance` and the statistics pass follow the code as written, as the program does. `ComputeEditDistanceCorrected` stands beside it as the intended computation.
