/**
 * The generator's two mutable entities: a `Word` (one vocabulary entry, with its
 * occurrences and its edit distances to other words) and a `Sentence` (a run of
 * tokens, linked to its neighbours).
 */
module Vocabulary {
  import opened Wrappers
  import opened Text
  import opened Collections
  import opened Segmentation
  import ED = EditDistance

  /** `Number.MAX_VALUE`: the lower end of a word's distance range before any distance is recorded. */
  const MaxValue: int := 179769313486231570814527423731704356798070567525844996598917476803157260780028538760589558632766878171540458953514382464234321326889464182768467546703537516986049910576551282076245490090389328944075868508455133942304583236903222948165808559332123348274797826204144723168738177180919299881250404026184124858368

  /**
   * The buckets and the per-word map describe the same relation; no bucket repeats a
   * key or holds the word's own; the range covers every recorded distance.
   */
  ghost predicate DistancesAgree(key: string, distances: map<int, seq<string>>, byWord: map<string, int>, lo: int, hi: int) {
    key !in byWord
    && (forall d :: d in distances ==> |distances[d]| > 0 && Distinct(distances[d]))
    && (forall d, i :: d in distances && 0 <= i < |distances[d]| ==>
          distances[d][i] in byWord && byWord[distances[d][i]] == d)
    && (forall k :: k in byWord ==> byWord[k] in distances && k in distances[byWord[k]])
    && (forall k :: k in byWord ==> 0 <= lo <= byWord[k] <= hi)
    && (byWord == map[] ==> lo == MaxValue && hi == 0)
  }

  /** Keys in order of non-decreasing recorded distance. */
  predicate NearestFirst(f: map<string, int>, s: seq<string>)
    requires forall x :: x in s ==> x in f
  {
    forall i, j :: 0 <= i < j < |s| ==> f[s[i]] <= f[s[j]]
  }

  /** Keys at distance `d` appended after keys nearer than `d` keep the order. */
  lemma NearestAppend(f: map<string, int>, s: seq<string>, t: seq<string>, d: int)
    requires forall x :: x in s ==> x in f && f[x] < d
    requires forall x :: x in t ==> x in f && f[x] == d
    requires NearestFirst(f, s)
    ensures forall x :: x in s + t ==> x in f
    ensures NearestFirst(f, s + t)
  {
    var u := s + t;
    forall i, j | 0 <= i < j < |u| ensures f[u[i]] <= f[u[j]] {
      if j >= |s| {
        assert u[j] == t[j - |s|];
        if i < |s| {
          assert u[i] == s[i];
        } else {
          assert u[i] == t[i - |s|];
        }
      } else {
        assert u[i] == s[i] && u[j] == s[j];
      }
    }
  }

  /**
   * The state of the nearest-first gathering before bucket `d`: the gathered keys are
   * distinct, nearer than `d` and in order; every key nearer than `d - 1` is gathered, and
   * so is every key nearer than `d` while the count is not reached.
   */
  predicate Gathered(f: map<string, int>, c: seq<string>, d: int, count: int) {
    Distinct(c)
    && (forall x :: x in c ==> x in f && f[x] < d)
    && NearestFirst(f, c)
    && (|c| <= count || c == [])
    && (forall k :: k in f && f[k] < d - 1 ==> k in c)
    && (|c| < count ==> forall k :: k in f && f[k] < d ==> k in c)
  }

  /** Gathering bucket `d` (all of it, or a selection that reaches the count) moves on to `d + 1`. */
  lemma GatherStep(f: map<string, int>, c: seq<string>, picked: seq<string>, bucket: seq<string>, d: int, count: int)
    requires Gathered(f, c, d, count) && |c| < count
    requires Distinct(bucket) && forall k :: k in bucket <==> k in f && f[k] == d
    requires Distinct(picked) && forall x :: x in picked ==> x in bucket
    requires |c| + |bucket| > count ==> |picked| == count - |c|
    requires |c| + |bucket| <= count ==> picked == bucket
    ensures Gathered(f, AddAll(c, picked), d + 1, count)
  {
    AddAllFresh(c, picked);
    NearestAppend(f, c, picked, d);
  }

  /**
   * When gathering stops (the count is reached, or every bucket up to the largest distance
   * `hi` is taken), the result holds the nearest keys, as many as the count allows.
   */
  lemma GatherDone(f: map<string, int>, c: seq<string>, d: int, count: int, hi: int)
    requires Gathered(f, c, d, count)
    requires forall k :: k in f ==> f[k] <= hi
    requires |c| >= count || d > hi
    ensures |c| == if count <= 0 then 0 else if count <= |f| then count else |f|
    ensures forall x, k :: x in c && k in f && f[k] < f[x] ==> k in c
  {
    DistinctWithin(c, f.Keys);
    if 0 < |c| < count || (0 < count && |c| == 0) {
      assert forall k :: k in f.Keys ==> k in Elements(c);
      assert Elements(c) == f.Keys;
      DistinctCard(c);
    }
  }

  /** Recording a new key at a non-negative distance keeps the records in agreement. */
  lemma RecordKeepsAgreement(key: string, distances: map<int, seq<string>>, byWord: map<string, int>, lo: int, hi: int, d: int, k: string)
    requires DistancesAgree(key, distances, byWord, lo, hi)
    requires 0 <= d && k != key && k !in byWord
    ensures DistancesAgree(key, AddToBucket(distances, d, k), byWord[k := d], if d < lo then d else lo, if d > hi then d else hi)
  {
    BucketsAfterAdd(distances, byWord, d, k);
    var m' := AddToBucket(distances, d, k);
    var b' := byWord[k := d];
    forall k' | k' in b' ensures b'[k'] in m' && k' in m'[b'[k']] {
      if k' != k {
        assert byWord[k'] in distances && k' in distances[byWord[k']];
        if byWord[k'] == d {
          assert m'[d] == distances[d] + [k];
        }
      } else {
        assert m'[d][|m'[d]| - 1] == k;
      }
    }
  }

  /** A word's occurrences: its locations, how many there are, and the locations by (sentence, token). */
  datatype Occurrences = Occurrences(locations: seq<Location>, frequency: nat, index: map<(nat, nat), Location>)

  /** The occurrences a word with locations `locs` holds once its counts are kept up to date. */
  function OccurrencesAt(locs: seq<Location>): Occurrences {
    Occurrences(locs, |locs|, LocationIndex(locs))
  }

  datatype DistanceRecords = DistanceRecords(buckets: map<int, seq<string>>, byWord: map<string, int>, lo: int, hi: int)

  /** The bookkeeping after recording key `k` at distance `d`: bucket, per-word map and range. */
  function AddRecord(r: DistanceRecords, d: int, k: string): (r': DistanceRecords)
    ensures r'.byWord == r.byWord[k := d] && r'.buckets == AddToBucket(r.buckets, d, k)
    ensures r'.lo <= d <= r'.hi && r'.lo <= r.lo && r.hi <= r'.hi
    ensures r'.lo == d || r'.lo == r.lo
    ensures r'.hi == d || r'.hi == r.hi
  {
    DistanceRecords(AddToBucket(r.buckets, d, k), r.byWord[k := d], if d < r.lo then d else r.lo, if d > r.hi then d else r.hi)
  }

  /** A word's bucket map after recording key `k` at distance `d`. */
  function AddToBucket(m: map<int, seq<string>>, d: int, k: string): (r: map<int, seq<string>>)
    ensures r.Keys == m.Keys + {d}
    ensures r[d] == (if d in m then m[d] else []) + [k]
    ensures forall d' :: d' in m && d' != d ==> r[d'] == m[d']
  {
    if d in m then m[d := m[d] + [k]] else m[d := [k]]
  }

  /**
   * `closest` is a choice of up to `count` other words, nearest first: no repetitions,
   * never the word's own key, as many as asked for while there are enough, and no
   * word left out that is nearer than one taken.
   */
  predicate Closest(f: map<string, int>, key: string, count: int, closest: seq<string>) {
    && Distinct(closest)
    && (forall x :: x in closest ==> x in f && x != key)
    && |closest| == (if count <= 0 then 0 else if count <= |f| then count else |f|)
    && (forall x, k :: x in closest && k in f && f[k] < f[x] ==> k in closest)
    && (forall i, j :: 0 <= i < j < |closest| ==> f[closest[i]] <= f[closest[j]])
  }

  class Word {
    /** The normalised key that identifies the word. */
    const key: string
    /** The raw token text at the word's first occurrence. */
    const raw: string
    var locations: seq<Location>
    /** Locations by (sentence index, token in sentence). */
    var sentenceLocations: map<(nat, nat), Location>
    var frequency: nat
    /** Keys of other words, bucketed by edit distance. */
    var distances: map<int, seq<string>>
    /** The edit distance recorded for each other word. */
    var distanceByWord: map<string, int>
    var rangeMin: int
    var rangeMax: int

    /** The frequency counts the locations, and the location index is built from them. */
    ghost predicate LocationsValid()
      reads this`frequency, this`locations, this`sentenceLocations
    {
      frequency == |locations| && sentenceLocations == LocationIndex(locations)
    }

    /**
     * The buckets and the per-word map describe the same relation; no bucket repeats a
     * key or holds the word's own; the range covers every recorded distance.
     */
    ghost predicate DistancesValid()
      reads this`distances, this`distanceByWord, this`rangeMin, this`rangeMax
    {
      DistancesAgree(key, distances, distanceByWord, rangeMin, rangeMax)
    }

    ghost predicate Valid()
      reads this`frequency, this`locations, this`sentenceLocations
      reads this`distances, this`distanceByWord, this`rangeMin, this`rangeMax
    {
      LocationsValid() && DistancesValid()
    }

    /** No distance recorded yet: the state a new word starts in. */
    ghost predicate NoDistances()
      reads this`distances, this`distanceByWord, this`rangeMin, this`rangeMax
    {
      distances == map[] && distanceByWord == map[] && rangeMin == MaxValue && rangeMax == 0
    }

    /** Where the word occurs, as a value. */
    ghost function Occurrence(): Occurrences
      reads this`locations, this`frequency, this`sentenceLocations
    {
      Occurrences(locations, frequency, sentenceLocations)
    }

    /** The distance bookkeeping as a value. */
    ghost function Records(): DistanceRecords
      reads this`distances, this`distanceByWord, this`rangeMin, this`rangeMax
    {
      DistanceRecords(distances, distanceByWord, rangeMin, rangeMax)
    }

    constructor (key: string, raw: string)
      ensures this.key == key && this.raw == raw
      ensures locations == [] && sentenceLocations == map[] && frequency == 0
      ensures distances == map[] && distanceByWord == map[] && rangeMin == MaxValue && rangeMax == 0
      ensures Valid()
    {
      this.key := key;
      this.raw := raw;
      locations := [];
      sentenceLocations := map[];
      frequency := 0;
      distances := map[];
      distanceByWord := map[];
      rangeMin := MaxValue;
      rangeMax := 0;
    }

    /**
     * Records an occurrence in `sentence` at its next token position (the word is not
     * yet added to the sentence); a missing raw text falls back to the word's own.
     */
    method AddLocation(rawString: Option<string>, line: nat, wordOnLine: nat, sentence: Sentence)
      modifies this`locations, this`sentenceLocations, this`frequency
      ensures var l := Location(if rawString.Some? then rawString.value else raw, line, wordOnLine, sentence.index, |sentence.tokens|);
        locations == old(locations) + [l]
        && sentenceLocations == old(sentenceLocations)[(l.sentence, l.tokenInSentence) := l]
      ensures frequency == old(frequency) + 1
      ensures distances == old(distances) && distanceByWord == old(distanceByWord)
      ensures rangeMin == old(rangeMin) && rangeMax == old(rangeMax)
      ensures old(LocationsValid()) ==> LocationsValid()
      ensures old(Valid()) ==> Valid()
    {
      var l := Location(if rawString.Some? then rawString.value else raw, line, wordOnLine, sentence.index, |sentence.tokens|);
      locations := locations + [l];
      sentenceLocations := sentenceLocations[(l.sentence, l.tokenInSentence) := l];
      frequency := frequency + 1;
      assert locations[..|locations| - 1] == old(locations);
    }

    /**
     * The raw text at a location given by sentence index and token position, or the
     * first raw text when no location is given or none is recorded there.
     */
    function GetRawString(at: Option<(nat, nat)>): (r: string)
      reads this
      ensures at.None? ==> r == raw
    {
      if at.Some? && at.value in sentenceLocations then sentenceLocations[at.value].raw else raw
    }

    /** Records distance `d` to `other`: in the per-word map, in the bucket for `d`, and in the range. */
    method SetDistance(d: int, other: Word)
      modifies this`distances, this`distanceByWord, this`rangeMin, this`rangeMax
      ensures distanceByWord == old(distanceByWord)[other.key := d]
      ensures distances == AddToBucket(old(distances), d, other.key)
      ensures rangeMin == (if d < old(rangeMin) then d else old(rangeMin))
      ensures rangeMax == (if d > old(rangeMax) then d else old(rangeMax))
      ensures old(DistancesValid()) && 0 <= d && other.key != key && other.key !in old(distanceByWord) ==> DistancesValid()
    {
      if DistancesValid() && 0 <= d && other.key != key && other.key !in distanceByWord {
        RecordKeepsAgreement(key, distances, distanceByWord, rangeMin, rangeMax, d, other.key);
      }
      distanceByWord := distanceByWord[other.key := d];
      distances := AddToBucket(distances, d, other.key);
      rangeMin := if d < rangeMin then d else rangeMin;
      rangeMax := if d > rangeMax then d else rangeMax;
    }

    /** The keys at distance `d` (none when nothing is recorded there). */
    function GetWordsAtDistance(d: int): (ws: seq<string>)
      reads this`distances, this`distanceByWord, this`rangeMin, this`rangeMax
      ensures DistancesValid() ==> Distinct(ws)
      ensures DistancesValid() ==> forall k :: k in ws <==> k in distanceByWord && distanceByWord[k] == d
    {
      if d in distances then distances[d] else []
    }

    /**
     * Up to `count` other words, nearest first: whole buckets in increasing distance
     * while they fit, then some selection of the next bucket that fills the count.
     */
    method GetClosestWords(count: int) returns (closest: seq<string>)
      requires DistancesValid()
      ensures Closest(distanceByWord, key, count, closest)
    {
      closest := [];
      var distance := rangeMin;
      while |closest| < count && distance <= rangeMax
        invariant Gathered(distanceByWord, closest, distance, count)
        decreases rangeMax - distance
      {
        var candidates := GetWordsAtDistance(distance);
        var picked := candidates;
        if |closest| + |candidates| > count {
          picked := SomeOf(candidates, count - |closest|);
        }
        GatherStep(distanceByWord, closest, picked, candidates, distance, count);
        closest := AddAll(closest, picked);
        distance := distance + 1;
      }
      GatherDone(distanceByWord, closest, distance, count, rangeMax);
    }

    /** Some `need` distinct keys of a bucket, in some order: the shuffled bucket's first `need`. */
    static method SomeOf(candidates: seq<string>, need: nat) returns (picked: seq<string>)
      requires need <= |candidates| && Distinct(candidates)
      ensures |picked| == need && Distinct(picked) && forall x :: x in picked ==> x in candidates
    {
      ghost var some := candidates[..need];
      assert Distinct(some) && forall x :: x in some ==> x in candidates;
      picked :| |picked| == need && Distinct(picked) && forall x :: x in picked ==> x in candidates;
    }

    /**
     * The bounded edit distance engine on the two words' keys, `w1`'s first. Unless the
     * engine gives up, both words record its answer, each under the other's key.
     */
    static method EditDistance(w1: Word, w2: Word, maxDist: Option<int>) returns (dist: int)
      modifies w1`distances, w1`distanceByWord, w1`rangeMin, w1`rangeMax
      modifies w2`distances, w2`distanceByWord, w2`rangeMin, w2`rangeMax
      ensures dist == ED.BoundedDistance(w1.key, w2.key, ED.EffectiveMaxDist(w1.key, w2.key, maxDist))
      ensures dist == ED.DistanceBeyond ==> unchanged(w1) && unchanged(w2)
      ensures dist != ED.DistanceBeyond ==>
        w1.distanceByWord == old(w1.distanceByWord)[w2.key := dist]
        && w2.distanceByWord == old(w2.distanceByWord)[w1.key := dist]
      ensures dist != ED.DistanceBeyond && w1 != w2 ==>
        w1.distances == AddToBucket(old(w1.distances), dist, w2.key)
        && w2.distances == AddToBucket(old(w2.distances), dist, w1.key)
      ensures dist != ED.DistanceBeyond && w1 != w2 ==>
        w1.Records() == AddRecord(old(w1.Records()), dist, w2.key)
        && w2.Records() == AddRecord(old(w2.Records()), dist, w1.key)
      ensures (w1.key != w2.key && old(w1.DistancesValid()) && old(w2.DistancesValid())
               && w2.key !in old(w1.distanceByWord) && w1.key !in old(w2.distanceByWord)) ==> w1.DistancesValid() && w2.DistancesValid()
    {
      dist := ED.ComputeEditDistance(w1.key, w2.key, maxDist);
      assert dist == ED.DistanceBeyond || 0 <= dist;
      if dist != ED.DistanceBeyond {
        RecordPair(w1, w2, dist);
      }
    }

    /** Each of the two words records `d` under the other's key. */
    static method RecordPair(w1: Word, w2: Word, d: nat)
      modifies w1`distances, w1`distanceByWord, w1`rangeMin, w1`rangeMax
      modifies w2`distances, w2`distanceByWord, w2`rangeMin, w2`rangeMax
      ensures w1.distanceByWord == old(w1.distanceByWord)[w2.key := d]
        && w2.distanceByWord == old(w2.distanceByWord)[w1.key := d]
      ensures w1 != w2 ==>
        w1.distances == AddToBucket(old(w1.distances), d, w2.key)
        && w2.distances == AddToBucket(old(w2.distances), d, w1.key)
      ensures w1 != w2 ==>
        w1.Records() == AddRecord(old(w1.Records()), d, w2.key)
        && w2.Records() == AddRecord(old(w2.Records()), d, w1.key)
      ensures (w1.key != w2.key && old(w1.DistancesValid()) && old(w2.DistancesValid())
               && w2.key !in old(w1.distanceByWord) && w1.key !in old(w2.distanceByWord)) ==> w1.DistancesValid() && w2.DistancesValid()
    {
      if w1 == w2 {
        w1.SetDistance(d, w2);
        w1.SetDistance(d, w1);
      } else {
        ghost var valid2 := w2.DistancesValid() && w1.key !in w2.distanceByWord;
        w1.SetDistance(d, w2);
        assert valid2 ==> w2.DistancesValid();
        w2.SetDistance(d, w1);
      }
    }
  }

  /** Adding a new key to a bucket map keeps the buckets and the per-word map in agreement. */
  lemma BucketsAfterAdd(m: map<int, seq<string>>, byWord: map<string, int>, d: int, k: string)
    requires forall d' :: d' in m ==> |m[d']| > 0 && Distinct(m[d'])
    requires forall d', i :: d' in m && 0 <= i < |m[d']| ==> m[d'][i] in byWord && byWord[m[d'][i]] == d'
    requires k !in byWord
    ensures var m' := AddToBucket(m, d, k); var byWord' := byWord[k := d];
      (forall d' :: d' in m' ==> |m'[d']| > 0 && Distinct(m'[d']))
      && (forall d', i :: d' in m' && 0 <= i < |m'[d']| ==> m'[d'][i] in byWord' && byWord'[m'[d'][i]] == d')
  {
    var m' := AddToBucket(m, d, k);
    if d in m {
      assert forall i :: 0 <= i < |m[d]| ==> m[d][i] != k;
    }
    forall d', i | d' in m' && 0 <= i < |m'[d']|
      ensures m'[d'][i] in byWord[k := d] && byWord[k := d][m'[d'][i]] == d'
    {
      if d' == d && i == |m'[d']| - 1 {
        assert m'[d'][i] == k;
      } else {
        assert m'[d'][i] == m[d'][i];
      }
    }
  }

  /** The keys of a sequence of words, in order. */
  function KeysOf(ws: seq<Word>): (ks: seq<string>)
    ensures |ks| == |ws| && forall i :: 0 <= i < |ws| ==> ks[i] == ws[i].key
  {
    seq(|ws|, i requires 0 <= i < |ws| => ws[i].key)
  }

  /** A sentence token: a word entry or a plain string. */
  datatype Token = WordToken(word: Word) | StringToken(text: string)

  /** How a token prints: a word by its first raw text. */
  function Render(t: Token): string {
    match t
    case WordToken(w) => w.raw
    case StringToken(s) => s
  }

  function RenderAll(ts: seq<Token>): (r: seq<string>)
    ensures |r| == |ts| && forall i :: 0 <= i < |ts| ==> r[i] == Render(ts[i])
  {
    seq(|ts|, i requires 0 <= i < |ts| => Render(ts[i]))
  }

  /** The keys of the word tokens. */
  function TokenKeys(ts: seq<Token>): set<string> {
    set i | 0 <= i < |ts| && ts[i].WordToken? :: ts[i].word.key
  }

  class Sentence {
    const index: nat
    /** The distinct words of the sentence, by key. */
    var words: map<string, Word>
    var tokens: seq<Token>
    var before: Sentence?
    var after: Sentence?

    /** The word map holds exactly the sentence's word tokens, each under its key. */
    ghost predicate Valid()
      reads this
    {
      words.Keys == TokenKeys(tokens) && forall k :: k in words ==> words[k].key == k
    }

    constructor (index: nat)
      ensures this.index == index && tokens == [] && words == map[] && before == null && after == null
      ensures Valid()
    {
      this.index := index;
      words := map[];
      tokens := [];
      before := null;
      after := null;
    }

    method AddToken(t: Token)
      modifies this`tokens, this`words
      ensures tokens == old(tokens) + [t]
      ensures words == if t.WordToken? then old(words)[t.word.key := t.word] else old(words)
      ensures before == old(before) && after == old(after)
      ensures old(Valid()) ==> Valid()
    {
      tokens := tokens + [t];
      if t.WordToken? {
        words := words[t.word.key := t.word];
      }
      assert tokens[..|tokens| - 1] == old(tokens);
      assert TokenKeys(tokens) == TokenKeys(old(tokens)) + if t.WordToken? then {t.word.key} else {} by {
        forall k | k in TokenKeys(tokens) ensures k in TokenKeys(old(tokens)) + if t.WordToken? then {t.word.key} else {} {
          var i :| 0 <= i < |tokens| && tokens[i].WordToken? && tokens[i].word.key == k;
          if i < |old(tokens)| {
            assert tokens[i] == old(tokens)[i];
          }
        }
        forall k | k in TokenKeys(old(tokens)) ensures k in TokenKeys(tokens) {
          var i :| 0 <= i < |old(tokens)| && old(tokens)[i].WordToken? && old(tokens)[i].word.key == k;
          assert tokens[i] == old(tokens)[i];
        }
        if t.WordToken? {
          assert tokens[|tokens| - 1] == t;
        }
      }
    }

    predicate IsEmpty()
      reads this
    {
      |tokens| == 0
    }

    /** The number of distinct words. */
    function GetWordCount(): (n: nat)
      reads this
      ensures Valid() ==> n == |TokenKeys(tokens)|
    {
      |words|
    }

    function GetTokenCount(): nat
      reads this
    {
      |tokens|
    }

    method SetBefore(s: Sentence?)
      modifies this`before
      ensures before == s && after == old(after) && tokens == old(tokens) && words == old(words)
    {
      before := s;
    }

    method SetAfter(s: Sentence?)
      modifies this`after
      ensures after == s && before == old(before) && tokens == old(tokens) && words == old(words)
    {
      after := s;
    }

    /** The last `n` tokens of the previous sentence, space-separated (`slice(-n)`). */
    function GetPrologue(n: int): (r: string)
      reads this, before
      ensures n == 0 || before == null ==> r == ""
      ensures n > 0 && before != null ==>
        r == Join(RenderAll(before.tokens[if n <= |before.tokens| then |before.tokens| - n else 0..]), " ")
    {
      if n == 0 then ""
      else if before != null then
        Join(RenderAll(SliceFrom(before.tokens, -n)), " ")
      else ""
    }

    /** The first `n` tokens of the next sentence, space-separated (`slice(0, n)`). */
    function GetEpilogue(n: int): (r: string)
      reads this, after
      ensures n == 0 || after == null ==> r == ""
      ensures n > 0 && after != null ==>
        r == Join(RenderAll(after.tokens[..if n <= |after.tokens| then n else |after.tokens|]), " ")
    {
      if n == 0 then ""
      else if after != null then
        Join(RenderAll(Slice(after.tokens, 0, n)), " ")
      else ""
    }

    /** The tokens joined by spaces, optionally framed by a prologue and an epilogue. */
    function ToString(p: int, e: int): string
      reads this, before, after
    {
      var text := Join(RenderAll(tokens), " ");
      var text1 := if p > 0 then GetPrologue(p) + " " + text else text;
      if e > 0 then text1 + " " + GetEpilogue(e) else text1
    }
  }

  /** Every token prints as one clean (non-empty, whitespace-free) piece. */
  predicate CleanTokens(ts: seq<Token>) {
    forall i :: 0 <= i < |ts| ==> IsCleanToken(Render(ts[i]))
  }

  /** At a recorded position, a word with locations in document order gives back the raw text seen there. */
  lemma GetRawStringAt(w: Word, i: nat, j: nat, x: string)
    requires w.LocationsValid() && InOrder(w.locations) && HasLocation(w.locations, i, j, x)
    ensures w.GetRawString(Some((i, j))) == x
  {
    LocationIndexFinds(w.locations, i, j, x);
  }

  /** A sentence's text splits back into its tokens. */
  lemma TextRoundTrip(s: Sentence)
    requires |s.tokens| > 0 && CleanTokens(s.tokens)
    ensures SplitWs(s.ToString(0, 0)) == RenderAll(s.tokens)
  {
    SplitWsJoin(RenderAll(s.tokens));
  }

  /** A run of clean tokens is clean. */
  lemma CleanSlice(ts: seq<Token>, i: nat, j: nat)
    requires i <= j <= |ts| && CleanTokens(ts)
    ensures CleanTokens(ts[i..j])
  {
    forall k | 0 <= k < j - i ensures IsCleanToken(Render(ts[i..j][k])) {
      assert ts[i..j][k] == ts[i + k];
    }
  }

  /** The printed pieces of clean tokens are clean. */
  lemma RenderedClean(ts: seq<Token>)
    requires CleanTokens(ts)
    ensures forall k :: 0 <= k < |RenderAll(ts)| ==> IsCleanToken(RenderAll(ts)[k])
  {
  }

  /** Three runs of clean pieces, joined by single spaces, split back into the three runs. */
  lemma JoinThree(a: seq<string>, b: seq<string>, c: seq<string>)
    requires |a| > 0 && |b| > 0 && |c| > 0
    requires forall k :: 0 <= k < |a| ==> IsCleanToken(a[k])
    requires forall k :: 0 <= k < |b| ==> IsCleanToken(b[k])
    requires forall k :: 0 <= k < |c| ==> IsCleanToken(c[k])
    ensures SplitWs(Join(a, " ") + " " + Join(b, " ") + " " + Join(c, " ")) == a + b + c
  {
    JoinAppend(a, b, " ");
    JoinAppend(a + b, c, " ");
    var all := a + b + c;
    forall k | 0 <= k < |all| ensures IsCleanToken(all[k]) {
      if k < |a| {
        assert all[k] == a[k];
      } else if k < |a| + |b| {
        assert all[k] == b[k - |a|];
      } else {
        assert all[k] == c[k - |a| - |b|];
      }
    }
    SplitWsJoin(all);
  }

  /**
   * With a prologue and an epilogue, the text splits into the previous sentence's last
   * `p` tokens, the sentence's own tokens and the next sentence's first `e` tokens.
   */
  lemma ContextRoundTrip(s: Sentence, p: int, e: int)
    requires p > 0 && e > 0 && s.before != null && s.after != null
    requires |s.before.tokens| > 0 && |s.tokens| > 0 && |s.after.tokens| > 0
    requires CleanTokens(s.before.tokens) && CleanTokens(s.tokens) && CleanTokens(s.after.tokens)
    ensures var pro := s.before.tokens[if p <= |s.before.tokens| then |s.before.tokens| - p else 0..];
      var epi := s.after.tokens[..if e <= |s.after.tokens| then e else |s.after.tokens|];
      SplitWs(s.ToString(p, e)) == RenderAll(pro) + RenderAll(s.tokens) + RenderAll(epi)
  {
    var i := if p <= |s.before.tokens| then |s.before.tokens| - p else 0;
    var j := if e <= |s.after.tokens| then e else |s.after.tokens|;
    CleanSlice(s.before.tokens, i, |s.before.tokens|);
    CleanSlice(s.after.tokens, 0, j);
    assert s.before.tokens[i..] == s.before.tokens[i..|s.before.tokens|];
    var pro, epi := s.before.tokens[i..], s.after.tokens[..j];
    assert s.ToString(p, e) == Join(RenderAll(pro), " ") + " " + Join(RenderAll(s.tokens), " ") + " " + Join(RenderAll(epi), " ");
    SplitThree(pro, s.tokens, epi);
  }

  /** Three non-empty runs of clean tokens, printed and joined by single spaces, split back into their pieces. */
  lemma SplitThree(a: seq<Token>, b: seq<Token>, c: seq<Token>)
    requires |a| > 0 && |b| > 0 && |c| > 0
    requires CleanTokens(a) && CleanTokens(b) && CleanTokens(c)
    ensures SplitWs(Join(RenderAll(a), " ") + " " + Join(RenderAll(b), " ") + " " + Join(RenderAll(c), " "))
      == RenderAll(a) + RenderAll(b) + RenderAll(c)
  {
    RenderedClean(a);
    RenderedClean(b);
    RenderedClean(c);
    JoinThree(RenderAll(a), RenderAll(b), RenderAll(c));
  }

}
