/** The bigram language-model trainer of `scripts/get_surprisals.py`: unigram and
    bigram frequency tables over marker-padded sentences, the add-one smoothed
    conditional probability, and the surprisal map derived from both tables. */
module Surprisals {
  import opened Seqs
  import opened Tables
  import opened Results
  import Text

  /** A word as produced by the tokenizer; tokenization itself is not modelled. */
  type Token = string
  type Sentence = seq<Token>
  type Bigram = (Token, Token)

  const StartMarker: Token := "<s>"
  const EndMarker: Token := "<e>"

  /** `['<s>'] + tokens + ['<e>']`. */
  function Padded(s: Sentence): seq<Token>
  {
    [StartMarker] + s + [EndMarker]
  }

  /** `(tokens[i], tokens[i + 1]) for i in range(len(tokens) - 1)`: the adjacent pairs, left to right. */
  function Pairs(ts: seq<Token>): (ps: seq<Bigram>)
    ensures |ps| == if |ts| == 0 then 0 else |ts| - 1
    ensures forall i :: 0 <= i < |ps| ==> ps[i] == (ts[i], ts[i + 1])
  {
    if |ts| < 2 then [] else [(ts[0], ts[1])] + Pairs(ts[1..])
  }

  /** The token stream of each sentence, markers included. */
  function SentenceTokens(sentences: seq<Sentence>): (groups: seq<seq<Token>>)
    ensures |groups| == |sentences|
  {
    seq(|sentences|, i requires 0 <= i < |sentences| => Padded(sentences[i]))
  }

  /** The bigrams of each sentence, markers included; no pair spans two sentences. */
  function SentenceBigrams(sentences: seq<Sentence>): (groups: seq<seq<Bigram>>)
    ensures |groups| == |sentences|
  {
    seq(|sentences|, i requires 0 <= i < |sentences| => Pairs(Padded(sentences[i])))
  }

  /** `get_unigrams(sentences)`: every entry has been incremented at least once, and
      both markers are counted as soon as there is a sentence. */
  function GetUnigrams(sentences: seq<Sentence>): (unigrams: map<Token, nat>)
    ensures Positive(unigrams)
    ensures |sentences| > 0 ==> StartMarker in unigrams && EndMarker in unigrams
  {
    var groups := SentenceTokens(sentences);
    CountAllCounts(map[], groups);
    if |sentences| == 0 then CountAll(map[], groups)
    else
      assert groups[0][0] == StartMarker && groups[0][|groups[0]| - 1] == EndMarker;
      FirstSentenceOccurs(groups, StartMarker);
      FirstSentenceOccurs(groups, EndMarker);
      CountAll(map[], groups)
  }

  /** `get_bigrams(sentences)`: every entry has been incremented at least once, and the
      first sentence's opening pair `(<s>, t0)` (or `(<s>, <e>)`) is counted. */
  function GetBigrams(sentences: seq<Sentence>): (bigrams: map<Bigram, nat>)
    ensures Positive(bigrams)
    ensures |sentences| > 0 ==> (StartMarker, Padded(sentences[0])[1]) in bigrams
  {
    var groups := SentenceBigrams(sentences);
    CountAllCounts(map[], groups);
    if |sentences| == 0 then CountAll(map[], groups)
    else
      assert groups[0][0] == (StartMarker, Padded(sentences[0])[1]);
      FirstSentenceOccurs(groups, groups[0][0]);
      CountAll(map[], groups)
  }

  /** A key held by the first group occurs. */
  lemma FirstSentenceOccurs<K>(groups: seq<seq<K>>, k: K)
    ensures |groups| > 0 && k in groups[0] ==> Occurrences(groups, k) > 0
  {
    OccurrencesPositive(groups, k);
  }

  /** The unigram table holds, for every word, its number of occurrences in the
      padded sentences, and has a key exactly for the words that occur. */
  lemma UnigramTable(sentences: seq<Sentence>, w: Token)
    ensures Lookup(GetUnigrams(sentences), w) == Occurrences(SentenceTokens(sentences), w)
    ensures w in GetUnigrams(sentences) <==> exists i :: 0 <= i < |sentences| && w in Padded(sentences[i])
    ensures Positive(GetUnigrams(sentences))
  {
    var groups := SentenceTokens(sentences);
    CountAllCounts(map[], groups);
    OccurrencesPositive(groups, w);
    if exists i :: 0 <= i < |sentences| && w in Padded(sentences[i]) {
      var i :| 0 <= i < |sentences| && w in Padded(sentences[i]);
      assert w in groups[i];
    }
  }

  /** The bigram table holds, for every pair, its number of occurrences inside the
      padded sentences, and has a key exactly for the pairs that occur inside one sentence. */
  lemma BigramTable(sentences: seq<Sentence>, p: Bigram)
    ensures Lookup(GetBigrams(sentences), p) == Occurrences(SentenceBigrams(sentences), p)
    ensures p in GetBigrams(sentences) <==> exists i :: 0 <= i < |sentences| && p in Pairs(Padded(sentences[i]))
    ensures Positive(GetBigrams(sentences))
  {
    var groups := SentenceBigrams(sentences);
    CountAllCounts(map[], groups);
    OccurrencesPositive(groups, p);
    if exists i :: 0 <= i < |sentences| && p in Pairs(Padded(sentences[i])) {
      var i :| 0 <= i < |sentences| && p in Pairs(Padded(sentences[i]));
      assert p in groups[i];
    }
  }

  /** Training on one more sentence continues from the table the earlier sentences left. */
  lemma UnigramsAppend(sentences: seq<Sentence>, s: Sentence)
    ensures GetUnigrams(sentences + [s]) == AddAll(GetUnigrams(sentences), Padded(s))
  {
    assert SentenceTokens(sentences + [s]) == SentenceTokens(sentences) + [Padded(s)];
    CountAllAppend(map[], SentenceTokens(sentences), Padded(s));
  }

  /** Training on one more sentence of n tokens adds exactly n + 2 unigram counts:
      one for each token and one for each marker. */
  lemma UnigramsPerSentence(sentences: seq<Sentence>, s: Sentence)
    ensures Total(GetUnigrams(sentences + [s])) == Total(GetUnigrams(sentences)) + |s| + 2
    ensures forall w :: Lookup(GetUnigrams(sentences + [s]), w) == Lookup(GetUnigrams(sentences), w) + Count(Padded(s), w)
    ensures Lookup(GetUnigrams(sentences + [s]), StartMarker) == Lookup(GetUnigrams(sentences), StartMarker) + 1 + Count(s, StartMarker)
    ensures Lookup(GetUnigrams(sentences + [s]), EndMarker) == Lookup(GetUnigrams(sentences), EndMarker) + 1 + Count(s, EndMarker)
  {
    var m := GetUnigrams(sentences);
    var m' := GetUnigrams(sentences + [s]);
    UnigramsAppend(sentences, s);
    AddAllCounts(m, Padded(s));
    assert Total(m') == Total(m) + |s| + 2;
    assert forall w :: Lookup(m', w) == Lookup(m, w) + Count(Padded(s), w);
    MarkerCounts(s);
  }

  /** A padded sentence holds each marker once more than the sentence itself. */
  lemma MarkerCounts(s: Sentence)
    ensures Count(Padded(s), StartMarker) == 1 + Count(s, StartMarker)
    ensures Count(Padded(s), EndMarker) == 1 + Count(s, EndMarker)
  {
    assert StartMarker != EndMarker;
    CountConcat([StartMarker] + s, [EndMarker], StartMarker);
    CountConcat([StartMarker], s, StartMarker);
    CountConcat([StartMarker] + s, [EndMarker], EndMarker);
    CountConcat([StartMarker], s, EndMarker);
  }

  /** When no token of the corpus is itself a marker, each marker is counted exactly
      once per sentence. */
  lemma {:induction false} MarkersOncePerSentence(sentences: seq<Sentence>)
    requires forall i :: 0 <= i < |sentences| ==> StartMarker !in sentences[i] && EndMarker !in sentences[i]
    ensures Lookup(GetUnigrams(sentences), StartMarker) == |sentences|
    ensures Lookup(GetUnigrams(sentences), EndMarker) == |sentences|
  {
    if sentences != [] {
      var init := sentences[..|sentences| - 1];
      var last := sentences[|sentences| - 1];
      assert sentences == init + [last];
      MarkersOncePerSentence(init);
      UnigramsPerSentence(init, last);
    }
  }

  /** The pairs of a padded sentence begin with `(<s>, first token)` and end with
      `(last token, <e>)`; an empty sentence yields the single pair `(<s>, <e>)`. */
  lemma PaddedPairsEnds(s: Sentence)
    ensures |Pairs(Padded(s))| == |s| + 1
    ensures Pairs(Padded(s))[0] == (StartMarker, if s == [] then EndMarker else s[0])
    ensures Pairs(Padded(s))[|s|] == (if s == [] then StartMarker else s[|s| - 1], EndMarker)
  {
    var ts := Padded(s);
    assert ts[|s| + 1] == EndMarker;
    assert s != [] ==> ts[|s|] == s[|s| - 1];
  }

  /** Training on one more sentence of n tokens adds exactly n + 1 bigram counts,
      among them `(<s>, t0)` and `(t_{n-1}, <e>)`. */
  lemma BigramsPerSentence(sentences: seq<Sentence>, s: Sentence)
    ensures Total(GetBigrams(sentences + [s])) == Total(GetBigrams(sentences)) + |s| + 1
    ensures forall p :: Lookup(GetBigrams(sentences + [s]), p) == Lookup(GetBigrams(sentences), p) + Count(Pairs(Padded(s)), p)
    ensures Lookup(GetBigrams(sentences + [s]), (StartMarker, if s == [] then EndMarker else s[0]))
            > Lookup(GetBigrams(sentences), (StartMarker, if s == [] then EndMarker else s[0]))
    ensures Lookup(GetBigrams(sentences + [s]), (if s == [] then StartMarker else s[|s| - 1], EndMarker))
            > Lookup(GetBigrams(sentences), (if s == [] then StartMarker else s[|s| - 1], EndMarker))
  {
    var ps := Pairs(Padded(s));
    assert SentenceBigrams(sentences + [s]) == SentenceBigrams(sentences) + [ps];
    CountAllAppend(map[], SentenceBigrams(sentences), ps);
    AddAllCounts(GetBigrams(sentences), ps);
    PaddedPairsEnds(s);
    assert ps[0] in ps && ps[|s|] in ps;
  }

  /** Each pair of a token sequence starting with `a` uses up one occurrence of `a`,
      and each pair ending with `b` one occurrence of `b` after the first position. */
  lemma {:induction false} PairsBounded(ts: seq<Token>, a: Token, b: Token)
    ensures Count(Pairs(ts), (a, b)) <= Count(ts, a)
    ensures |ts| > 0 ==> Count(Pairs(ts), (a, b)) <= Count(ts[1..], b)
  {
    if |ts| >= 2 {
      var rest := Pairs(ts[1..]);
      PairsBounded(ts[1..], a, b);
      assert ([(ts[0], ts[1])] + rest)[1..] == rest;
      assert ts[1..][1..] == ts[2..];
    }
  }

  /** The bigram and unigram tables built from the same sentences satisfy
      `bigram[(a, b)] <= unigram[a]` and `bigram[(a, b)] <= unigram[b]`. */
  lemma {:induction false} OccurrencesBounded(sentences: seq<Sentence>, a: Token, b: Token)
    ensures Occurrences(SentenceBigrams(sentences), (a, b)) <= Occurrences(SentenceTokens(sentences), a)
    ensures Occurrences(SentenceBigrams(sentences), (a, b)) <= Occurrences(SentenceTokens(sentences), b)
  {
    if sentences != [] {
      OccurrencesBounded(sentences[1..], a, b);
      PairsBounded(Padded(sentences[0]), a, b);
      assert SentenceTokens(sentences)[1..] == SentenceTokens(sentences[1..]);
      assert SentenceBigrams(sentences)[1..] == SentenceBigrams(sentences[1..]);
    }
  }

  /** For tables built from the same sentences, a bigram is never counted more often
      than either of its words, so both words of every bigram key are unigram keys. */
  lemma BigramBoundedByUnigrams(sentences: seq<Sentence>, a: Token, b: Token)
    ensures Lookup(GetBigrams(sentences), (a, b)) <= Lookup(GetUnigrams(sentences), a)
    ensures Lookup(GetBigrams(sentences), (a, b)) <= Lookup(GetUnigrams(sentences), b)
    ensures (a, b) in GetBigrams(sentences) ==> a in GetUnigrams(sentences) && b in GetUnigrams(sentences)
  {
    UnigramTable(sentences, a);
    UnigramTable(sentences, b);
    BigramTable(sentences, (a, b));
    OccurrencesBounded(sentences, a, b);
  }

  /** An exact fraction `num / den`, standing in for the float the source divides out. */
  datatype Ratio = Ratio(num: nat, den: nat) {

    /** The fraction lies in the interval (0, 1]. */
    predicate InUnitInterval()
    {
      0 < num <= den
    }

    function Value(): real
      requires den > 0
    {
      num as real / den as real
    }
  }

  /** The add-one smoothed conditional probability of a bigram key:
      `(bigram_freq[p] + 1) / (unigram_freq.get(p[0], 0) + 1)`. */
  function SmoothedProbability(unigrams: map<Token, nat>, bigrams: map<Bigram, nat>, p: Bigram): (r: Ratio)
    requires p in bigrams
    ensures r.num >= 1 && r.den >= 1 && r.Value() > 0.0
  {
    Ratio(bigrams[p] + 1, Lookup(unigrams, p.0) + 1)
  }

  /** For tables built from the same sentences, every smoothed probability lies in
      (0, 1], and it is exactly 1 when the bigram is as frequent as its first word. */
  lemma ProbabilityInUnitInterval(sentences: seq<Sentence>, p: Bigram)
    requires p in GetBigrams(sentences)
    ensures SmoothedProbability(GetUnigrams(sentences), GetBigrams(sentences), p).InUnitInterval()
    ensures 0.0 < SmoothedProbability(GetUnigrams(sentences), GetBigrams(sentences), p).Value() <= 1.0
    ensures SmoothedProbability(GetUnigrams(sentences), GetBigrams(sentences), p).Value() == 1.0
            <==> GetBigrams(sentences)[p] == Lookup(GetUnigrams(sentences), p.0)
  {
    BigramBoundedByUnigrams(sentences, p.0, p.1);
    var r := SmoothedProbability(GetUnigrams(sentences), GetBigrams(sentences), p);
    UnitFraction(r);
  }

  /** A fraction lies in (0, 1] exactly when its value does, and is 1 exactly when
      numerator and denominator agree. */
  lemma UnitFraction(r: Ratio)
    requires r.den > 0
    ensures r.InUnitInterval() <==> 0.0 < r.Value() <= 1.0
    ensures r.Value() == 1.0 <==> r.num == r.den
  {
    var n := r.num as real;
    var d := r.den as real;
    var v := r.Value();
    assert v * d == n;
    ScaledBounds(v, d, n);
  }

  /** With `v * d == n` and `d > 0`, `v` lies on the same side of 0 and of 1 as `n` does of
      0 and of `d`. */
  lemma ScaledBounds(v: real, d: real, n: real)
    requires d > 0.0 && v * d == n
    ensures v > 0.0 <==> n > 0.0
    ensures v <= 1.0 <==> n <= d
    ensures v == 1.0 <==> n == d
  {
    if v > 0.0 {
      PositiveProduct(v, d);
    } else if v < 0.0 {
      PositiveProduct(-v, d);
      assert (-v) * d == -n;
    }
    if v > 1.0 {
      PositiveProduct(v - 1.0, d);
      assert (v - 1.0) * d == n - d;
    } else if v < 1.0 {
      PositiveProduct(1.0 - v, d);
      assert (1.0 - v) * d == d - n;
    }
  }

  lemma PositiveProduct(x: real, y: real)
    requires x > 0.0 && y > 0.0
    ensures x * y > 0.0
  {
  }

  /** A first word missing from the unigram table counts as 0, so the probability is
      `bigram count + 1`, which exceeds 1 for any counted bigram: tables that were not
      built from the same sentences can leave the interval (0, 1]. */
  lemma UnseenFirstWord(unigrams: map<Token, nat>, bigrams: map<Bigram, nat>, p: Bigram)
    requires p in bigrams && p.0 !in unigrams
    ensures SmoothedProbability(unigrams, bigrams, p).Value() == (bigrams[p] + 1) as real
    ensures bigrams[p] >= 1 ==> !SmoothedProbability(unigrams, bigrams, p).InUnitInterval()
  {
  }

  /** The properties of the base-2 logarithm the model relies on. `math.log2` itself is
      a floating-point routine; the model only assumes it is a strictly increasing
      logarithm with base 2. */
  ghost predicate IsLog2(log2: real -> real)
  {
    && log2(2.0) == 1.0
    && (forall x: real, y: real :: 0.0 < x && 0.0 < y ==> log2(x * y) == log2(x) + log2(y))
    && (forall x: real, y: real :: 0.0 < x < y ==> log2(x) < log2(y))
  }

  /** The logarithm of 1 is 0. */
  lemma Log2OfOne(log2: real -> real)
    requires IsLog2(log2)
    ensures log2(1.0) == 0.0
  {
    assert log2(1.0 * 1.0) == log2(1.0) + log2(1.0);
  }

  /** `get_surprisal(probability)`: `-math.log2(probability)`; a probability that is not
      positive raises `ValueError` (a math domain error). */
  function GetSurprisal(log2: real -> real, probability: real): (r: Result<real>)
    ensures r.Ok? <==> probability > 0.0
    ensures r.Err? ==> r.error == ValueError
  {
    if probability <= 0.0 then Err(ValueError) else Ok(-log2(probability))
  }

  /** Surprisal is non-negative on (0, 1], zero exactly at probability 1, and negative
      above 1. */
  lemma SurprisalSign(log2: real -> real, probability: real)
    requires IsLog2(log2) && probability > 0.0
    ensures probability <= 1.0 ==> GetSurprisal(log2, probability).value >= 0.0
    ensures GetSurprisal(log2, probability).value == 0.0 <==> probability == 1.0
    ensures probability > 1.0 ==> GetSurprisal(log2, probability).value < 0.0
  {
    Log2OfOne(log2);
    if probability < 1.0 {
      assert log2(probability) < log2(1.0);
    } else if probability > 1.0 {
      assert log2(1.0) < log2(probability);
    }
  }

  /** A more probable transition is strictly less surprising. */
  lemma SurprisalDecreasing(log2: real -> real, p: real, q: real)
    requires IsLog2(log2) && 0.0 < p < q
    ensures GetSurprisal(log2, p).value > GetSurprisal(log2, q).value
  {
    assert log2(p) < log2(q);
  }

  /** `get_bigram_surprisal(unigram_freq, bigram_freq)`: one entry per key of the bigram
      table, each the surprisal of that bigram's smoothed probability; bigrams never
      counted get no entry. */
  function GetBigramSurprisal(log2: real -> real, unigrams: map<Token, nat>, bigrams: map<Bigram, nat>): (r: map<Bigram, real>)
    ensures r.Keys == bigrams.Keys
    ensures forall p :: p in r ==> GetSurprisal(log2, SmoothedProbability(unigrams, bigrams, p).Value()) == Ok(r[p])
  {
    map p | p in bigrams :: GetSurprisal(log2, SmoothedProbability(unigrams, bigrams, p).Value()).value
  }

  /** Surprisals from tables trained on the same sentences are non-negative, and zero
      exactly for a bigram as frequent as its first word. */
  lemma TrainedSurprisals(log2: real -> real, sentences: seq<Sentence>, p: Bigram)
    requires IsLog2(log2)
    requires p in GetBigrams(sentences)
    ensures GetBigramSurprisal(log2, GetUnigrams(sentences), GetBigrams(sentences))[p] >= 0.0
    ensures GetBigramSurprisal(log2, GetUnigrams(sentences), GetBigrams(sentences))[p] == 0.0
            <==> GetBigrams(sentences)[p] == Lookup(GetUnigrams(sentences), p.0)
  {
    var u := GetUnigrams(sentences);
    var b := GetBigrams(sentences);
    ProbabilityInUnitInterval(sentences, p);
    SurprisalSign(log2, SmoothedProbability(u, b, p).Value());
  }

  /** With a first word missing from the unigram table the surprisal of a counted bigram
      is negative. */
  lemma UnseenFirstWordSurprisal(log2: real -> real, unigrams: map<Token, nat>, bigrams: map<Bigram, nat>, p: Bigram)
    requires IsLog2(log2)
    requires p in bigrams && p.0 !in unigrams && bigrams[p] >= 1
    ensures GetBigramSurprisal(log2, unigrams, bigrams)[p] < 0.0
  {
    UnseenFirstWord(unigrams, bigrams, p);
    SurprisalSign(log2, SmoothedProbability(unigrams, bigrams, p).Value());
  }

  /** `get_lines`: one stripped string per line read, in the same order. */
  method GetLines(lines: seq<string>) returns (stripped: seq<string>)
    ensures |stripped| == |lines|
    ensures forall i :: 0 <= i < |lines| ==> stripped[i] == Text.Strip(lines[i], Text.IsSpace)
  {
    stripped := [];
    for i := 0 to |lines|
      invariant |stripped| == i
      invariant forall k :: 0 <= k < i ==> stripped[k] == Text.Strip(lines[k], Text.IsSpace)
    {
      stripped := stripped + [Text.Strip(lines[i], Text.IsSpace)];
    }
  }
}
