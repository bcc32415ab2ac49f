/**
  The sentence-score table of the second pass: every sentence, taken from
  its raw lowercased text, scored by the table frequencies of its tokens.
 */
module Scores {
  import opened Cleanup
  import opened Frequencies

  /**
    The sentence_scores dictionary: its keys in insertion order (the order
    in which they are iterated) and the score of each key.
   */
  datatype ScoreTable = ScoreTable(keys: seq<string>, scores: map<string, nat>)
  {
    ghost predicate Valid() {
      && Distinct(keys)
      && (forall k :: k in scores <==> k in keys)
    }

    /** Lookup with a default of 0, as get(sentence, 0). */
    function Get(k: string): nat {
      if k in scores then scores[k] else 0
    }

    /** Assignment to a key: an existing key keeps its place, a new key goes last. */
    function Put(k: string, v: nat): ScoreTable {
      if k in scores then ScoreTable(keys, scores[k := v]) else ScoreTable(keys + [k], scores[k := v])
    }
  }

  /**
    Assignment keeps the table well formed: keys stay distinct and are
    exactly the scored sentences; the new key is last unless it was there.
   */
  lemma PutValid(t: ScoreTable, k: string, v: nat)
    requires t.Valid()
    ensures t.Put(k, v).Valid()
    ensures t.Put(k, v).Get(k) == v
    ensures k in t.keys ==> t.Put(k, v).keys == t.keys
    ensures k !in t.keys ==> t.Put(k, v).keys == t.keys + [k]
  {
  }

  /** No element occurs twice. */
  predicate Distinct(xs: seq<string>) {
    forall i, j :: 0 <= i < j < |xs| ==> xs[i] != xs[j]
  }

  const EmptyTable := ScoreTable([], map[])

  /** Some token of `tokens` has an entry in the frequency table. */
  predicate HasMatch(tokens: seq<string>, freq: map<string, nat>) {
    exists t :: t in tokens && t in freq
  }

  /** The sum, with multiplicity, of the table frequencies of the tokens; absent tokens add 0. */
  function Score(tokens: seq<string>, freq: map<string, nat>): nat
  {
    if tokens == [] then 0
    else
      var last := tokens[|tokens| - 1];
      Score(tokens[..|tokens| - 1], freq) + (if last in freq then freq[last] else 0)
  }

  /**
    A sentence none of whose tokens is in the table scores 0; with a
    matching token and table entries of at least 1 it scores at least 1.
   */
  lemma {:induction false} ScoreZeroIffNoMatch(tokens: seq<string>, freq: map<string, nat>)
    ensures !HasMatch(tokens, freq) ==> Score(tokens, freq) == 0
    ensures HasMatch(tokens, freq) && (forall w :: w in freq ==> freq[w] >= 1) ==> Score(tokens, freq) >= 1
  {
    if tokens != [] {
      var init, last := tokens[..|tokens| - 1], tokens[|tokens| - 1];
      assert tokens == init + [last];
      ScoreZeroIffNoMatch(init, freq);
      if HasMatch(tokens, freq) && last !in freq {
        var t :| t in tokens && t in freq;
        assert t in init;
      }
    }
  }

  lemma ScoreSnoc(tokens: seq<string>, w: string, freq: map<string, nat>)
    ensures Score(tokens + [w], freq) == Score(tokens, freq) + (if w in freq then freq[w] else 0)
    ensures HasMatch(tokens + [w], freq) <==> HasMatch(tokens, freq) || w in freq
  {
    assert (tokens + [w])[..|tokens|] == tokens;
  }

  /** The score is additive over concatenated token runs. */
  lemma {:induction false} ScoreAppend(a: seq<string>, b: seq<string>, freq: map<string, nat>)
    ensures Score(a + b, freq) == Score(a, freq) + Score(b, freq)
  {
    if b != [] {
      var init, last := b[..|b| - 1], b[|b| - 1];
      assert a + b == (a + init) + [last];
      assert b == init + [last];
      ScoreSnoc(a + init, last, freq);
      ScoreSnoc(init, last, freq);
      ScoreAppend(a, init, freq);
    } else {
      assert a + b == a;
    }
  }

  /** The tokens of the second pass: the raw sentence lowercased, not cleaned. */
  function RawTokens(sentence: string, tokenize: Tokenizer): seq<string> {
    tokenize(Lower(sentence))
  }

  /** What the inner loop does to the table for one sentence with the given tokens. */
  function AddSentence(t: ScoreTable, sentence: string, tokens: seq<string>, freq: map<string, nat>): ScoreTable
  {
    if HasMatch(tokens, freq) then t.Put(sentence, t.Get(sentence) + Score(tokens, freq)) else t
  }

  /** The sentence_scores dictionary after the second pass over `sentences`. */
  function ScoreTableOf(sentences: seq<string>, tokenize: Tokenizer, freq: map<string, nat>): ScoreTable
  {
    if sentences == [] then EmptyTable
    else
      var last := sentences[|sentences| - 1];
      AddSentence(ScoreTableOf(sentences[..|sentences| - 1], tokenize, freq), last, RawTokens(last, tokenize), freq)
  }

  /** Index of the first occurrence of `x` in `xs`. */
  function FirstIndex(xs: seq<string>, x: string): (r: nat)
    requires x in xs
    ensures r < |xs| && xs[r] == x
    ensures forall j :: 0 <= j < r ==> xs[j] != x
  {
    if xs[0] == x then 0 else 1 + FirstIndex(xs[1..], x)
  }

  lemma FirstIndexSnoc(xs: seq<string>, y: string, x: string)
    requires x in xs + [y]
    ensures x in xs ==> FirstIndex(xs + [y], x) == FirstIndex(xs, x)
    ensures x !in xs ==> FirstIndex(xs + [y], x) == |xs|
  {
    var r := FirstIndex(xs + [y], x);
    if x in xs {
      var s := FirstIndex(xs, x);
      assert (xs + [y])[s] == x;
    } else {
      assert forall j :: 0 <= j < |xs| ==> (xs + [y])[j] != x;
    }
  }

  /** The table after one sentence more is the old table with that sentence added. */
  lemma ScoreTableOfSnoc(sentences: seq<string>, s: string, tokenize: Tokenizer, freq: map<string, nat>)
    ensures ScoreTableOf(sentences + [s], tokenize, freq)
         == AddSentence(ScoreTableOf(sentences, tokenize, freq), s, RawTokens(s, tokenize), freq)
  {
    assert (sentences + [s])[..|sentences|] == sentences;
  }

  /** The table the second pass builds is well formed. */
  lemma {:induction false} ScoreTableValid(sentences: seq<string>, tokenize: Tokenizer, freq: map<string, nat>)
    ensures ScoreTableOf(sentences, tokenize, freq).Valid()
  {
    if sentences != [] {
      var init, last := sentences[..|sentences| - 1], sentences[|sentences| - 1];
      var before := ScoreTableOf(init, tokenize, freq);
      ScoreTableValid(init, tokenize, freq);
      PutValid(before, last, before.Get(last) + Score(RawTokens(last, tokenize), freq));
    }
  }

  /** A sentence is a key exactly when it occurs and one of its raw tokens has a frequency. */
  lemma {:induction false} ScoreTableKeys(sentences: seq<string>, tokenize: Tokenizer, freq: map<string, nat>, s: string)
    ensures s in ScoreTableOf(sentences, tokenize, freq).scores <==>
              s in sentences && HasMatch(RawTokens(s, tokenize), freq)
  {
    if sentences != [] {
      var init, last := sentences[..|sentences| - 1], sentences[|sentences| - 1];
      assert sentences == init + [last];
      ScoreTableKeys(init, tokenize, freq, s);
    }
  }

  /** Adding a sentence raises its own entry by its score and leaves other entries alone. */
  lemma AddSentenceGet(t: ScoreTable, sentence: string, tokens: seq<string>, freq: map<string, nat>, s: string)
    ensures AddSentence(t, sentence, tokens, freq).Get(s) == t.Get(s) + (if s == sentence then Score(tokens, freq) else 0)
  {
    ScoreZeroIffNoMatch(tokens, freq);
  }

  lemma MulSucc(c: nat, x: nat)
    ensures (c + 1) * x == c * x + x
  {
  }

  /**
    Identical sentences share one key, whose score is the score of one copy
    times the number of copies.
   */
  lemma {:induction false} ScoreTableValues(sentences: seq<string>, tokenize: Tokenizer, freq: map<string, nat>, s: string)
    ensures ScoreTableOf(sentences, tokenize, freq).Get(s) == Count(sentences, s) * Score(RawTokens(s, tokenize), freq)
  {
    if sentences != [] {
      var init, last := sentences[..|sentences| - 1], sentences[|sentences| - 1];
      assert sentences == init + [last];
      ScoreTableValues(init, tokenize, freq, s);
      ScoreTableOfSnoc(init, last, tokenize, freq);
      AddSentenceGet(ScoreTableOf(init, tokenize, freq), last, RawTokens(last, tokenize), freq, s);
      CountSnoc(init, last, s);
      if last == s {
        MulSucc(Count(init, s), Score(RawTokens(s, tokenize), freq));
      }
    }
  }

  /**
    The scores in closed form: each sentence with a matching raw token
    weighs its number of copies times the score of one copy.
   */
  ghost function Weights(sentences: seq<string>, tokenize: Tokenizer, freq: map<string, nat>): map<string, nat> {
    map s | s in sentences && HasMatch(RawTokens(s, tokenize), freq) ::
      Count(sentences, s) * Score(RawTokens(s, tokenize), freq)
  }

  /** The score table, read as a map, is exactly the closed form. */
  lemma ScoreTableScores(sentences: seq<string>, tokenize: Tokenizer, freq: map<string, nat>)
    ensures ScoreTableOf(sentences, tokenize, freq).scores == Weights(sentences, tokenize, freq)
  {
    var t, w := ScoreTableOf(sentences, tokenize, freq), Weights(sentences, tokenize, freq);
    forall s ensures s in t.scores <==> s in w {
      ScoreTableKeys(sentences, tokenize, freq, s);
    }
    forall s | s in t.scores ensures t.scores[s] == w[s] {
      ScoreTableValues(sentences, tokenize, freq, s);
    }
  }

  /** `keys` are sentences listed in the order of their first occurrence. */
  ghost predicate InFirstOccurrenceOrder(keys: seq<string>, sentences: seq<string>) {
    && (forall k :: k in keys ==> k in sentences)
    && (forall a, b :: 0 <= a < b < |keys| ==> FirstIndex(sentences, keys[a]) < FirstIndex(sentences, keys[b]))
  }

  lemma InFirstOccurrenceOrderSnoc(keys: seq<string>, sentences: seq<string>, s: string)
    requires InFirstOccurrenceOrder(keys, sentences)
    ensures InFirstOccurrenceOrder(keys, sentences + [s])
    ensures s !in sentences ==> InFirstOccurrenceOrder(keys + [s], sentences + [s])
  {
    forall k | k in keys ensures FirstIndex(sentences + [s], k) == FirstIndex(sentences, k) {
      FirstIndexSnoc(sentences, s, k);
    }
    if s !in sentences {
      FirstIndexSnoc(sentences, s, s);
      var keys' := keys + [s];
      forall a, b | 0 <= a < b < |keys'|
        ensures FirstIndex(sentences + [s], keys'[a]) < FirstIndex(sentences + [s], keys'[b])
      {
        if b == |keys| {
          assert keys'[a] in keys;
        } else {
          assert keys'[a] == keys[a] && keys'[b] == keys[b];
        }
      }
    }
  }

  /** Keys are ordered by the position of the sentence's first occurrence. */
  lemma {:induction false} ScoreTableOrder(sentences: seq<string>, tokenize: Tokenizer, freq: map<string, nat>)
    ensures InFirstOccurrenceOrder(ScoreTableOf(sentences, tokenize, freq).keys, sentences)
  {
    if sentences != [] {
      var init, last := sentences[..|sentences| - 1], sentences[|sentences| - 1];
      assert sentences == init + [last];
      ScoreTableOrder(init, tokenize, freq);
      ScoreTableOfSnoc(init, last, tokenize, freq);
      var before := ScoreTableOf(init, tokenize, freq);
      InFirstOccurrenceOrderSnoc(before.keys, init, last);
      ScoreTableValid(init, tokenize, freq);
      if last !in before.keys && HasMatch(RawTokens(last, tokenize), freq) {
        ScoreTableKeys(init, tokenize, freq, last);
        PutValid(before, last, before.Get(last) + Score(RawTokens(last, tokenize), freq));
      }
    }
  }

  /** Assigning a key twice is assigning it once, with the second value. */
  lemma PutPut(t: ScoreTable, k: string, a: nat, b: nat)
    ensures t.Put(k, a).Put(k, b) == t.Put(k, b)
  {
    assert t.Put(k, a).Put(k, b).scores == t.Put(k, b).scores;
  }

  /** A token without a frequency leaves the sentence's effect on the table unchanged. */
  lemma AddSentenceSnocAbsent(t: ScoreTable, sentence: string, tokens: seq<string>, w: string, freq: map<string, nat>)
    requires w !in freq
    ensures AddSentence(t, sentence, tokens + [w], freq) == AddSentence(t, sentence, tokens, freq)
  {
    ScoreSnoc(tokens, w, freq);
  }

  /** The first matching token of a sentence creates or bumps its entry. */
  lemma AddSentenceSnocFirstMatch(t: ScoreTable, sentence: string, tokens: seq<string>, w: string, freq: map<string, nat>)
    requires w in freq && !HasMatch(tokens, freq)
    ensures AddSentence(t, sentence, tokens + [w], freq) == t.Put(sentence, t.Get(sentence) + freq[w])
  {
    ScoreSnoc(tokens, w, freq);
    ScoreZeroIffNoMatch(tokens, freq);
  }

  /** A later matching token adds its frequency to the entry already written. */
  lemma AddSentenceSnocNextMatch(t: ScoreTable, sentence: string, tokens: seq<string>, w: string, freq: map<string, nat>)
    requires w in freq && HasMatch(tokens, freq)
    ensures var cur := AddSentence(t, sentence, tokens, freq);
      AddSentence(t, sentence, tokens + [w], freq) == cur.Put(sentence, cur.Get(sentence) + freq[w])
  {
    ScoreSnoc(tokens, w, freq);
    var a := t.Get(sentence) + Score(tokens, freq);
    PutPut(t, sentence, a, a + freq[w]);
    assert AddSentence(t, sentence, tokens + [w], freq) == t.Put(sentence, a + freq[w]);
  }

  /**
    The inner loop of the second pass for one sentence: each raw token that
    has a frequency adds it to the sentence's entry.
   */
  method ScoreSentence(sentenceScores: ScoreTable, sentence: string, words: seq<string>, freq: map<string, nat>)
    returns (updated: ScoreTable)
    ensures updated == AddSentence(sentenceScores, sentence, words, freq)
  {
    updated := sentenceScores;
    for j := 0 to |words|
      invariant updated == AddSentence(sentenceScores, sentence, words[..j], freq)
    {
      var word := words[j];
      assert words[..j + 1] == words[..j] + [word];
      if word in freq {
        if HasMatch(words[..j], freq) {
          AddSentenceSnocNextMatch(sentenceScores, sentence, words[..j], word, freq);
        } else {
          AddSentenceSnocFirstMatch(sentenceScores, sentence, words[..j], word, freq);
        }
        updated := updated.Put(sentence, updated.Get(sentence) + freq[word]);
      } else {
        AddSentenceSnocAbsent(sentenceScores, sentence, words[..j], word, freq);
      }
    }
    assert words[..|words|] == words;
  }

  /** The second loop of the summariser: every sentence in turn is scored into the table. */
  method BuildSentenceScores(sentences: seq<string>, tokenize: Tokenizer, freq: map<string, nat>)
    returns (sentenceScores: ScoreTable)
    ensures sentenceScores == ScoreTableOf(sentences, tokenize, freq)
  {
    sentenceScores := EmptyTable;
    for i := 0 to |sentences|
      invariant sentenceScores == ScoreTableOf(sentences[..i], tokenize, freq)
    {
      var sentence := sentences[i];
      sentenceScores := ScoreSentence(sentenceScores, sentence, tokenize(Lower(sentence)), freq);
      assert sentences[..i + 1] == sentences[..i] + [sentence];
      ScoreTableOfSnoc(sentences[..i], sentence, tokenize, freq);
    }
    assert sentences[..|sentences|] == sentences;
  }
}
