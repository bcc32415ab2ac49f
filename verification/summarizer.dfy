/**
  The extractive summariser: word frequencies from the cleaned sentences,
  sentence scores from the raw lowercased sentences, the highest-scoring
  sentences selected and joined with single spaces.
 */
module Summarizer {
  import opened Frequencies
  import opened Scores
  import opened Selection
  import opened Joining

  /** A sentence splitter, taken as given (it is a library collaborator). */
  type SentenceSplitter = string -> seq<string>

  /** The selected sentences, in summary order, for a given sentence list. */
  function SummarySentences(sentences: seq<string>, numSentences: nat, tokenize: Tokenizer, stopWords: set<string>): seq<string>
  {
    var freq := WordFrequencies(sentences, tokenize, stopWords);
    ScoreTableValid(sentences, tokenize, freq);
    NLargest(numSentences, ScoreTableOf(sentences, tokenize, freq))
  }

  /** The sentences that receive a score: those with a raw token in the frequency table. */
  ghost function ScoredSentences(sentences: seq<string>, tokenize: Tokenizer, freq: map<string, nat>): set<string> {
    set s | s in sentences && HasMatch(RawTokens(s, tokenize), freq)
  }

  lemma {:induction false} DistinctCardinality(xs: seq<string>)
    requires Distinct(xs)
    ensures |set x | x in xs| == |xs|
  {
    if xs != [] {
      DistinctCardinality(xs[1..]);
      assert (set x | x in xs) == {xs[0]} + (set x | x in xs[1..]);
      assert xs[0] !in (set x | x in xs[1..]);
    }
  }

  /**
    The summary holds no sentence twice, and only sentences of the text one
    of whose raw tokens is in the frequency table.
   */
  lemma SummaryPicksScoredSentences(sentences: seq<string>, numSentences: nat, tokenize: Tokenizer, stopWords: set<string>, s: string)
    requires s in SummarySentences(sentences, numSentences, tokenize, stopWords)
    ensures Distinct(SummarySentences(sentences, numSentences, tokenize, stopWords))
    ensures s in sentences && HasMatch(RawTokens(s, tokenize), WordFrequencies(sentences, tokenize, stopWords))
  {
    ScoreTableKeys(sentences, tokenize, WordFrequencies(sentences, tokenize, stopWords), s);
  }

  /** The summary has min(numSentences, number of scored distinct sentences) sentences. */
  lemma SummaryCount(sentences: seq<string>, numSentences: nat, tokenize: Tokenizer, stopWords: set<string>)
    ensures |SummarySentences(sentences, numSentences, tokenize, stopWords)|
         == Min(numSentences, |ScoredSentences(sentences, tokenize, WordFrequencies(sentences, tokenize, stopWords))|)
  {
    var freq := WordFrequencies(sentences, tokenize, stopWords);
    var t := ScoreTableOf(sentences, tokenize, freq);
    ScoreTableValid(sentences, tokenize, freq);
    DistinctCardinality(t.keys);
    forall s ensures s in t.keys <==> s in ScoredSentences(sentences, tokenize, freq) {
      ScoreTableKeys(sentences, tokenize, freq, s);
    }
    assert (set k | k in t.keys) == ScoredSentences(sentences, tokenize, freq);
  }

  /**
    Every sentence in the summary weighs at least as much as every scored
    sentence left out, a sentence's weight being its number of copies
    times the table frequencies of its raw tokens.
   */
  lemma SummaryTopWeights(sentences: seq<string>, numSentences: nat, tokenize: Tokenizer, stopWords: set<string>, x: string, y: string)
    requires x in SummarySentences(sentences, numSentences, tokenize, stopWords)
    requires y in ScoredSentences(sentences, tokenize, WordFrequencies(sentences, tokenize, stopWords))
    requires y !in SummarySentences(sentences, numSentences, tokenize, stopWords)
    ensures var freq := WordFrequencies(sentences, tokenize, stopWords);
      Count(sentences, x) * Score(RawTokens(x, tokenize), freq) >= Count(sentences, y) * Score(RawTokens(y, tokenize), freq)
  {
    var freq := WordFrequencies(sentences, tokenize, stopWords);
    var t := ScoreTableOf(sentences, tokenize, freq);
    ScoreTableValid(sentences, tokenize, freq);
    ScoreTableKeys(sentences, tokenize, freq, y);
    NLargestTopScores(numSentences, t, x, y);
    ScoreTableValues(sentences, tokenize, freq, x);
    ScoreTableValues(sentences, tokenize, freq, y);
  }

  /**
    A sentence none of whose raw tokens is a counted word (each is a
    stopword, or a token such as punctuation that the first pass never
    produced) never receives a score, so it is never selected, however
    many sentences are asked for.
   */
  lemma StopWordSentenceUnscored(sentences: seq<string>, numSentences: nat, tokenize: Tokenizer, stopWords: set<string>, s: string)
    requires forall t :: t in RawTokens(s, tokenize) ==> t in stopWords || t !in CleanTokens(sentences, tokenize)
    ensures s !in ScoreTableOf(sentences, tokenize, WordFrequencies(sentences, tokenize, stopWords)).scores
    ensures s !in SummarySentences(sentences, numSentences, tokenize, stopWords)
  {
    var freq := WordFrequencies(sentences, tokenize, stopWords);
    assert !HasMatch(RawTokens(s, tokenize), freq);
    ScoreTableKeys(sentences, tokenize, freq, s);
    ScoreTableValid(sentences, tokenize, freq);
  }

  lemma WithScoreSubset(ks: seq<string>, sc: map<string, nat>, v: nat)
    ensures forall k :: k in WithScore(ks, sc, v) ==> k in ks && k in sc && sc[k] == v
  {
    if ks != [] {
      WithScoreSubset(ks[1..], sc, v);
    }
  }

  lemma InFirstOccurrenceOrderPrefix(a: seq<string>, b: seq<string>, sentences: seq<string>)
    requires a <= b && InFirstOccurrenceOrder(b, sentences)
    ensures InFirstOccurrenceOrder(a, sentences)
  {
    forall k | k in a ensures k in b {
      var i :| 0 <= i < |a| && a[i] == k;
      assert b[i] == k;
    }
    forall i, j | 0 <= i < j < |a| ensures FirstIndex(sentences, a[i]) < FirstIndex(sentences, a[j]) {
      assert a[i] == b[i] && a[j] == b[j];
    }
  }

  lemma InFirstOccurrenceOrderUncons(ks: seq<string>, sentences: seq<string>)
    requires ks != [] && InFirstOccurrenceOrder(ks, sentences)
    ensures InFirstOccurrenceOrder(ks[1..], sentences)
    ensures forall k :: k in ks[1..] ==> FirstIndex(sentences, ks[0]) < FirstIndex(sentences, k)
  {
    var rest := ks[1..];
    forall i, j | 0 <= i < j < |rest| ensures FirstIndex(sentences, rest[i]) < FirstIndex(sentences, rest[j]) {
      assert rest[i] == ks[i + 1] && rest[j] == ks[j + 1];
    }
    forall k | k in rest ensures FirstIndex(sentences, ks[0]) < FirstIndex(sentences, k) {
      var j :| 0 <= j < |rest| && rest[j] == k;
      assert ks[j + 1] == k;
    }
  }

  lemma ConsPairInOrder(h: string, tail: seq<string>, sentences: seq<string>, a: nat, b: nat)
    requires h in sentences && InFirstOccurrenceOrder(tail, sentences)
    requires forall k :: k in tail ==> FirstIndex(sentences, h) < FirstIndex(sentences, k)
    requires a < b < |tail| + 1
    ensures ([h] + tail)[a] in sentences && ([h] + tail)[b] in sentences
    ensures FirstIndex(sentences, ([h] + tail)[a]) < FirstIndex(sentences, ([h] + tail)[b])
  {
    var r := [h] + tail;
    assert r[b] == tail[b - 1] && tail[b - 1] in tail;
    if a > 0 {
      assert r[a] == tail[a - 1];
    }
  }

  lemma InFirstOccurrenceOrderCons(h: string, tail: seq<string>, sentences: seq<string>)
    requires h in sentences && InFirstOccurrenceOrder(tail, sentences)
    requires forall k :: k in tail ==> FirstIndex(sentences, h) < FirstIndex(sentences, k)
    ensures InFirstOccurrenceOrder([h] + tail, sentences)
  {
    var r := [h] + tail;
    forall k | k in r ensures k in sentences {
      if k != h {
        assert k in tail;
      }
    }
    forall a, b | 0 <= a < b < |r| ensures FirstIndex(sentences, r[a]) < FirstIndex(sentences, r[b]) {
      ConsPairInOrder(h, tail, sentences, a, b);
    }
  }

  /** Keeping only the keys of one score keeps the first-occurrence order. */
  lemma {:induction false} WithScoreInOrder(ks: seq<string>, sc: map<string, nat>, v: nat, sentences: seq<string>)
    requires InFirstOccurrenceOrder(ks, sentences)
    ensures InFirstOccurrenceOrder(WithScore(ks, sc, v), sentences)
  {
    if ks != [] {
      InFirstOccurrenceOrderUncons(ks, sentences);
      WithScoreInOrder(ks[1..], sc, v, sentences);
      WithScoreSubset(ks[1..], sc, v);
      if ks[0] in sc && sc[ks[0]] == v {
        InFirstOccurrenceOrderCons(ks[0], WithScore(ks[1..], sc, v), sentences);
      }
    }
  }

  /**
    Sentences of equal weight appear in the summary in the order of their
    first occurrence in the text.
   */
  lemma SummaryTiesInFirstOccurrenceOrder(sentences: seq<string>, numSentences: nat, tokenize: Tokenizer, stopWords: set<string>, v: nat)
    ensures var freq := WordFrequencies(sentences, tokenize, stopWords);
      InFirstOccurrenceOrder(
        WithScore(SummarySentences(sentences, numSentences, tokenize, stopWords), Weights(sentences, tokenize, freq), v),
        sentences)
  {
    var freq := WordFrequencies(sentences, tokenize, stopWords);
    var t := ScoreTableOf(sentences, tokenize, freq);
    ScoreTableValid(sentences, tokenize, freq);
    ScoreTableScores(sentences, tokenize, freq);
    ScoreTableOrder(sentences, tokenize, freq);
    NLargestTiesInTableOrder(numSentences, t, v);
    WithScoreInOrder(t.keys, t.scores, v, sentences);
    InFirstOccurrenceOrderPrefix(WithScore(NLargest(numSentences, t), t.scores, v), WithScore(t.keys, t.scores, v), sentences);
  }

  /**
    extractive_summarization(text, num_sentences): split the text into
    sentences, build the two tables, select and join.
   */
  method ExtractiveSummarization(text: string, sentTokenize: SentenceSplitter, wordTokenize: Tokenizer,
                                 stopWords: set<string>, numSentences: nat := 3)
    returns (summary: string)
    ensures summary == Join(SummarySentences(sentTokenize(text), numSentences, wordTokenize, stopWords))
    ensures sentTokenize(text) == [] || numSentences == 0 ==> summary == ""
  {
    var sentences := sentTokenize(text);
    var wordFrequencies := BuildWordFrequencies(sentences, wordTokenize, stopWords);
    var sentenceScores := BuildSentenceScores(sentences, wordTokenize, wordFrequencies);
    ScoreTableValid(sentences, wordTokenize, wordFrequencies);
    var summarySentences := NLargest(numSentences, sentenceScores);
    summary := Join(summarySentences);
  }
}
