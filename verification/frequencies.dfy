/**
  The word-frequency table: every non-stopword token of the cleaned
  sentences, counted across the whole document.
 */
module Frequencies {
  import opened Cleanup

  /** A word tokenizer, taken as given (it is a library collaborator). */
  type Tokenizer = string -> seq<string>

  /** Number of occurrences of `w` in `ws`. */
  function Count(ws: seq<string>, w: string): (r: nat)
    ensures r <= |ws|
    ensures r > 0 <==> w in ws
  {
    if ws == [] then 0
    else
      assert ws == ws[..|ws| - 1] + [ws[|ws| - 1]];
      Count(ws[..|ws| - 1], w) + (if ws[|ws| - 1] == w then 1 else 0)
  }

  lemma CountSnoc(ws: seq<string>, x: string, w: string)
    ensures Count(ws + [x], w) == Count(ws, w) + (if x == w then 1 else 0)
  {
    assert (ws + [x])[..|ws|] == ws;
  }

  /** Tokens of the first pass: the tokenizer applied to each cleaned sentence, in order. */
  function CleanTokens(sentences: seq<string>, tokenize: Tokenizer): seq<string>
  {
    if sentences == [] then []
    else CleanTokens(sentences[..|sentences| - 1], tokenize) + tokenize(Clean(sentences[|sentences| - 1]))
  }

  /** The table of a token stream: each non-stopword token with its number of occurrences. */
  function TokenTable(ws: seq<string>, stopWords: set<string>): (freq: map<string, nat>)
    ensures forall w :: w in freq <==> w in ws && w !in stopWords
    ensures forall w :: w in freq ==> 1 <= freq[w] <= |ws|
  {
    map w | w in ws && w !in stopWords :: Count(ws, w)
  }

  /** The word_frequencies dictionary that the first pass over the sentences builds. */
  function WordFrequencies(sentences: seq<string>, tokenize: Tokenizer, stopWords: set<string>): map<string, nat>
  {
    TokenTable(CleanTokens(sentences, tokenize), stopWords)
  }

  /** One token more: a stopword leaves the table alone, any other token gains one occurrence. */
  lemma {:induction false} TokenTableSnoc(ws: seq<string>, x: string, stopWords: set<string>)
    ensures x in stopWords ==> TokenTable(ws + [x], stopWords) == TokenTable(ws, stopWords)
    ensures x !in stopWords ==>
      var table := TokenTable(ws, stopWords);
      TokenTable(ws + [x], stopWords) == table[x := (if x in table then table[x] else 0) + 1]
  {
    var before, after := TokenTable(ws, stopWords), TokenTable(ws + [x], stopWords);
    forall w | w in after
      ensures after[w] == Count(ws, w) + (if x == w then 1 else 0)
    {
      CountSnoc(ws, x, w);
    }
    if x in stopWords {
      assert after.Keys == before.Keys;
    } else {
      var expected := before[x := (if x in before then before[x] else 0) + 1];
      assert after.Keys == expected.Keys;
      forall w | w in after ensures after[w] == expected[w] {
        CountSnoc(ws, x, w);
      }
    }
  }

  /** Tokens that are all stopwords leave the table unchanged. */
  lemma {:induction false} TokenTableIgnoreStopWords(ws: seq<string>, extra: seq<string>, stopWords: set<string>)
    requires forall t :: t in extra ==> t in stopWords
    ensures TokenTable(ws + extra, stopWords) == TokenTable(ws, stopWords)
  {
    if extra != [] {
      var init := extra[..|extra| - 1];
      assert ws + extra == (ws + init) + [extra[|extra| - 1]];
      TokenTableSnoc(ws + init, extra[|extra| - 1], stopWords);
      TokenTableIgnoreStopWords(ws, init, stopWords);
    } else {
      assert ws + extra == ws;
    }
  }

  /** Occurrences in a concatenation add up. */
  lemma {:induction false} CountAppend(a: seq<string>, b: seq<string>, w: string)
    ensures Count(a + b, w) == Count(a, w) + Count(b, w)
  {
    if b != [] {
      var init, last := b[..|b| - 1], b[|b| - 1];
      assert a + b == (a + init) + [last];
      assert b == init + [last];
      CountSnoc(a + init, last, w);
      CountSnoc(init, last, w);
      CountAppend(a, init, w);
    } else {
      assert a + b == a;
    }
  }

  /** The cleaned tokens of concatenated sentence lists are the concatenated tokens. */
  lemma {:induction false} CleanTokensAppend(a: seq<string>, b: seq<string>, tokenize: Tokenizer)
    ensures CleanTokens(a + b, tokenize) == CleanTokens(a, tokenize) + CleanTokens(b, tokenize)
  {
    if b != [] {
      var init, last := b[..|b| - 1], b[|b| - 1];
      assert a + b == (a + init) + [last];
      assert b == init + [last];
      CleanTokensSnoc(a + init, last, tokenize);
      CleanTokensSnoc(init, last, tokenize);
      CleanTokensAppend(a, init, tokenize);
    } else {
      assert a + b == a;
    }
  }

  /** Stopword tokens inserted anywhere in the token stream leave the table unchanged. */
  lemma TokenTableSkipStopWords(a: seq<string>, extra: seq<string>, b: seq<string>, stopWords: set<string>)
    requires forall t :: t in extra ==> t in stopWords
    ensures TokenTable(a + extra + b, stopWords) == TokenTable(a + b, stopWords)
  {
    var with, without := TokenTable(a + extra + b, stopWords), TokenTable(a + b, stopWords);
    assert with.Keys == without.Keys;
    forall w | w in with ensures with[w] == without[w] {
      CountAppend(a + extra, b, w);
      CountAppend(a, extra, w);
      CountAppend(a, b, w);
    }
  }

  /**
    A sentence whose cleaned tokens are all stopwords adds nothing to the
    table, wherever it stands in the text.
   */
  lemma StopWordSentenceAddsNothing(before: seq<string>, sentence: string, after: seq<string>, tokenize: Tokenizer, stopWords: set<string>)
    requires forall t :: t in tokenize(Clean(sentence)) ==> t in stopWords
    ensures WordFrequencies(before + [sentence] + after, tokenize, stopWords) == WordFrequencies(before + after, tokenize, stopWords)
  {
    var a, extra, b := CleanTokens(before, tokenize), tokenize(Clean(sentence)), CleanTokens(after, tokenize);
    CleanTokensAppend(before + [sentence], after, tokenize);
    CleanTokensSnoc(before, sentence, tokenize);
    CleanTokensAppend(before, after, tokenize);
    TokenTableSkipStopWords(a, extra, b, stopWords);
  }

  lemma CleanTokensSnoc(sentences: seq<string>, s: string, tokenize: Tokenizer)
    ensures CleanTokens(sentences + [s], tokenize) == CleanTokens(sentences, tokenize) + tokenize(Clean(s))
  {
    assert (sentences + [s])[..|sentences|] == sentences;
  }

  /**
    The inner loop of the first pass for one sentence: each token that is
    not a stopword has its count incremented.
   */
  method CountWords(wordFrequencies: map<string, nat>, ghost seen: seq<string>, words: seq<string>, stopWords: set<string>)
    returns (updated: map<string, nat>)
    requires wordFrequencies == TokenTable(seen, stopWords)
    ensures updated == TokenTable(seen + words, stopWords)
  {
    updated := wordFrequencies;
    assert seen + words[..0] == seen;
    for j := 0 to |words|
      invariant updated == TokenTable(seen + words[..j], stopWords)
    {
      var word := words[j];
      TokenTableSnoc(seen + words[..j], word, stopWords);
      assert seen + words[..j + 1] == (seen + words[..j]) + [word];
      if word !in stopWords {
        updated := updated[word := (if word in updated then updated[word] else 0) + 1];
        assert updated == TokenTable((seen + words[..j]) + [word], stopWords);
      } else {
        assert updated == TokenTable((seen + words[..j]) + [word], stopWords);
      }
    }
    assert words[..|words|] == words;
  }

  /** The first loop of the summariser: every sentence in turn is counted into the table. */
  method BuildWordFrequencies(sentences: seq<string>, tokenize: Tokenizer, stopWords: set<string>)
    returns (wordFrequencies: map<string, nat>)
    ensures wordFrequencies == WordFrequencies(sentences, tokenize, stopWords)
    ensures forall w :: w in wordFrequencies <==> w in CleanTokens(sentences, tokenize) && w !in stopWords
    ensures forall w :: w in wordFrequencies ==>
              wordFrequencies[w] == Count(CleanTokens(sentences, tokenize), w) >= 1
  {
    wordFrequencies := map[];
    for i := 0 to |sentences|
      invariant wordFrequencies == WordFrequencies(sentences[..i], tokenize, stopWords)
    {
      var sentence := sentences[i];
      wordFrequencies := CountWords(wordFrequencies, CleanTokens(sentences[..i], tokenize), tokenize(Clean(sentence)), stopWords);
      assert sentences[..i + 1] == sentences[..i] + [sentence];
      CleanTokensSnoc(sentences[..i], sentence, tokenize);
    }
    assert sentences[..|sentences|] == sentences;
  }
}
