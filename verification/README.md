# Extractive text summarisation, modelled in Dafny

This project models `extractive_summarization(text, num_sentences=3)` from
`text_summariztion.py`, a frequency-heuristic extractive summariser. The
function works in four stages:

1. **Split.** The text is split into sentences (`Summarizer.SentenceSplitter`).
2. **Count words.** Each sentence is cleaned: it is lowercased and every
   character outside `a-zA-Z` becomes a space (module `Cleanup`). The
   cleaned text is tokenised, and every token that is not a stopword is
   counted into `word_frequencies` (module `Frequencies`).
3. **Score sentences.** Each sentence is tokenised a second time, from its
   raw lowercased text with no cleanup. Every token that has a frequency
   adds it to the sentence's entry in `sentence_scores` (module `Scores`).
   Because the two passes tokenise different texts, a token such as `nlp.`
   from the second pass can miss `nlp` from the first. The model keeps
   this mismatch: `Frequencies.CleanTokens` and `Scores.RawTokens` are
   separate.
4. **Select and join.** `heapq.nlargest` picks the `num_sentences` keys of
   highest score, modelled as a stable descending sort cut after n entries
   (module `Selection`). The picked sentences are joined with single
   spaces (module `Joining`).

The two loops of the source become methods with loop invariants:
- `Frequencies.BuildWordFrequencies` with `Frequencies.CountWords`;
- `Scores.BuildSentenceScores` with `Scores.ScoreSentence`.

Each method is proved equal to a specification function, and the
properties are proved about those functions.

`word_frequencies` is a `map`: nothing in the function observes its
order. `sentence_scores` is a `Scores.ScoreTable`, which holds its keys in
insertion order beside the map, because `nlargest` breaks ties by
iteration order. Two consequences of the dictionary are modelled exactly:
- A sentence that occurs twice is a single key, with twice the score.
- A sentence with no matching token never becomes a key, so it can never
  be selected.

As a result, a `num_sentences` larger than the number of sentences gives
every distinct *scored* sentence, not every sentence
(`Summarizer.SummaryCount`).

The NLTK collaborators are parameters:
- `sent_tokenize` and `word_tokenize` are functions `string -> seq<string>`;
- `stopwords.words('english')` is a `set<string>`.

## Model

| member | source | states |
|---|---|---|
| `Cleanup.LowerChar` | text_summariztion.py:33 | lowercasing one character maps `A`-`Z` onto `a`-`z` at the same alphabet position, leaves every other character unchanged, and keeps letters letters |
| `Cleanup.Lower` | text_summariztion.py:33 | `lower()` keeps the length and lowercases every position |
| `Cleanup.BlankNonLetters` | text_summariztion.py:33 | the `[^a-zA-Z]` substitution keeps the length and letters, and turns every other character into one space |
| `Cleanup.Clean` | text_summariztion.py:33 | the cleaned sentence has the sentence's length and holds only lowercase letters and spaces; letters come out lowercased in place and every non-letter comes out as a space |
| `Frequencies.CleanTokens` | text_summariztion.py:31-33 | definition: the first-pass tokens, the tokenizer applied to each cleaned sentence in order |
| `Frequencies.Count` | text_summariztion.py:36 | a token's occurrence count is at most the number of tokens and is positive exactly when the token occurs |
| `Frequencies.TokenTable` | text_summariztion.py:31-36 | the table's keys are exactly the tokens that are not stopwords; each value lies between 1 and the number of tokens |
| `Frequencies.WordFrequencies` | text_summariztion.py:31-36 | definition: the word_frequencies dictionary, the token table of the first-pass tokens |
| `Frequencies.CountAppend` | text_summariztion.py:36 | occurrence counts add up over a concatenation of token runs |
| `Frequencies.CleanTokensAppend` | text_summariztion.py:31-33 | the first-pass tokens of concatenated sentence lists are the concatenation of their tokens |
| `Frequencies.TokenTableSnoc` | text_summariztion.py:34-36 | one more token leaves the table unchanged if it is a stopword, and otherwise raises its count by one (from 0 when absent) |
| `Frequencies.TokenTableIgnoreStopWords` | text_summariztion.py:34-35 | appending tokens that are all stopwords does not change the table |
| `Frequencies.TokenTableSkipStopWords` | text_summariztion.py:34-35 | stopword tokens inserted anywhere in the token stream leave the table unchanged |
| `Frequencies.StopWordSentenceAddsNothing` | text_summariztion.py:31-36 | a sentence whose cleaned tokens are all stopwords, wherever it stands in the text, leaves the word-frequency table as it would be without it |
| `Frequencies.CountWords` | text_summariztion.py:34-36 | the inner loop over one sentence's tokens turns the table of the tokens seen so far into the table of those tokens followed by the sentence's tokens |
| `Frequencies.BuildWordFrequencies` | text_summariztion.py:28-36 | the first pass yields the frequency table of all cleaned tokens: its keys are the non-stopword tokens, and each value is the token's total count over all sentences, at least 1 |
| `Scores.ScoreTable.Get` | text_summariztion.py:43 | definition: `sentence_scores.get(sentence, 0)`, the stored score or 0 |
| `Scores.ScoreTable.Put` | text_summariztion.py:43 | definition: the assignment `sentence_scores[sentence] = …`; an existing key is overwritten in place, a new key is appended |
| `Scores.PutValid` | text_summariztion.py:43 | assigning a key keeps the keys distinct and equal to the scored sentences; afterwards the key reads back the new value; an existing key keeps its place and a new key goes last |
| `Scores.PutPut` | text_summariztion.py:43 | assigning the same key twice equals assigning it once with the second value |
| `Scores.Score` | text_summariztion.py:41-43 | definition: the sum, with multiplicity, of the frequencies of the tokens that have one |
| `Scores.RawTokens` | text_summariztion.py:41 | definition: the second-pass tokens, the tokenizer applied to the lowercased but uncleaned sentence |
| `Scores.AddSentence` | text_summariztion.py:41-43 | definition: the whole inner loop for one sentence; the sentence's entry grows by its score when some token matches, and the table is untouched otherwise |
| `Scores.ScoreTableOf` | text_summariztion.py:39-43 | definition: the sentence_scores dictionary after the second pass, the sentences added in order starting from the empty table |
| `Scores.ScoreZeroIffNoMatch` | text_summariztion.py:41-43 | a token run with no token in the frequency table scores 0; with a matching token, and every table value at least 1, it scores at least 1 |
| `Scores.ScoreAppend` | text_summariztion.py:41-43 | the score of concatenated token runs is the sum of their scores; duplicate tokens count each time |
| `Scores.AddSentenceGet` | text_summariztion.py:41-43 | scoring a sentence adds its score to its own entry and leaves every other entry alone |
| `Scores.AddSentenceSnocAbsent` | text_summariztion.py:42 | a token without a frequency has no effect on the sentence's entry |
| `Scores.AddSentenceSnocFirstMatch` | text_summariztion.py:42-43 | the first matching token creates the entry, or raises an existing one, by its frequency |
| `Scores.AddSentenceSnocNextMatch` | text_summariztion.py:42-43 | each further matching token adds its frequency to the entry written so far |
| `Scores.ScoreSentence` | text_summariztion.py:41-43 | the inner loop over one sentence's raw tokens has the effect of scoring the sentence once with all its tokens |
| `Scores.BuildSentenceScores` | text_summariztion.py:39-43 | the second pass builds exactly the score table of the sentence list, scored from the raw lowercased tokens |
| `Scores.ScoreTableValid` | text_summariztion.py:39-43 | the score table's keys are distinct and are exactly the sentences with a score |
| `Scores.ScoreTableKeys` | text_summariztion.py:40-43 | a sentence is a key exactly when it occurs in the text and one of its raw tokens has a frequency |
| `Scores.ScoreTableValues` | text_summariztion.py:39-43 | a sentence's score is its number of occurrences times the sum, with multiplicity, of the frequencies of its raw tokens |
| `Scores.ScoreTableScores` | text_summariztion.py:39-43 | the score table, read as a map, equals that closed form over the scored sentences |
| `Scores.ScoreTableOrder` | text_summariztion.py:39-43 | the keys appear in the order of each sentence's first occurrence in the text |
| `Selection.Insert` | text_summariztion.py:46 | inserting into a sorted run adds exactly the one element |
| `Selection.SortDescending` | text_summariztion.py:46 | the sort is a permutation of the keys, with scores non-increasing |
| `Selection.SortDescendingDistinct` | text_summariztion.py:46 | sorting distinct keys gives distinct keys |
| `Selection.SortDescendingStable` | text_summariztion.py:46 | for every score, the keys with that score keep their relative order: the sort is stable |
| `Selection.NLargest` | text_summariztion.py:46 | `nlargest` returns min(n, number of keys) distinct keys of the table, in non-increasing score order |
| `Selection.NLargestAll` | text_summariztion.py:46 | when n is at least the number of keys, every key is returned |
| `Selection.NLargestTopScores` | text_summariztion.py:46 | every returned key scores at least as much as every key not returned |
| `Selection.NLargestTiesInTableOrder` | text_summariztion.py:46 | among equal scores, the returned keys are a leading run of the table's keys of that score, in table order |
| `Selection.NLargestGrows` | text_summariztion.py:46 | a smaller n gives a prefix of the answer for a larger n |
| `Joining.Join` | text_summariztion.py:47 | joining no parts gives the empty string; otherwise the length is the parts' total length plus one separator between each pair |
| `Joining.JoinFirst` | text_summariztion.py:47 | the first part opens the joined string and, when more parts follow, a space comes right after it |
| `Joining.JoinLayout` | text_summariztion.py:47 | every part appears unchanged at its offset in the joined string, and a single space follows every part but the last |
| `Summarizer.SummarySentences` | text_summariztion.py:28-46 | definition: the selected sentences of a sentence list, which are `nlargest` over the score table built from the word-frequency table |
| `Summarizer.SummaryPicksScoredSentences` | text_summariztion.py:40-46 | the summary repeats no sentence, and holds only sentences of the text with a raw token in the frequency table |
| `Summarizer.SummaryCount` | text_summariztion.py:46 | the summary has min(num_sentences, number of distinct scored sentences) sentences |
| `Summarizer.SummaryTopWeights` | text_summariztion.py:39-46 | every selected sentence weighs at least as much as every scored sentence left out, where weight is the number of occurrences times the frequency sum of the raw tokens |
| `Summarizer.StopWordSentenceUnscored` | text_summariztion.py:31-46 | a sentence each of whose raw tokens is a stopword, or a token the first pass never produced (such as its final punctuation), gets no score and is never selected |
| `Summarizer.SummaryTiesInFirstOccurrenceOrder` | text_summariztion.py:39-46 | selected sentences of equal weight appear in the order of their first occurrence in the text |
| `Summarizer.ExtractiveSummarization` | text_summariztion.py:12-49 | the summary is the join of the selected sentences of the split text; an empty sentence list (what `sent_tokenize` returns for empty text) or a request for 0 sentences gives the empty string |

## Left out

- Downloading the NLTK data (`text_summariztion.py:9-10`), because it is network and file I/O.
- The internals of `sent_tokenize`, `word_tokenize` and the English stopword list, because they are foreign library code. They are parameters, so every property holds for any tokenizer and any stopword set.
- Unicode lowercasing: `Cleanup.LowerChar` folds ASCII letters only and leaves every other character unchanged. Python's `str.lower` can change non-ASCII characters, and even the string's length.
- The heap algorithm inside `heapq.nlargest`. Only its documented result is modelled: `sorted(..., key, reverse=True)[:n]`, with ties kept in table order.
- A negative `num_sentences`: the code does not check the argument, and the model takes a natural number. A request for 0 sentences is modelled and gives an empty summary. The code has no `InvalidArgument` error for such requests, so the model has none either.
- The module-level example text and its `print` (`text_summariztion.py:51-58`), because they are a demonstration driver and not part of the function.
- A sentence made only of stopwords is covered pass by pass. For the first pass, `Frequencies.StopWordSentenceAddsNothing` covers a sentence whose cleaned tokens are stopwords. For the second pass, `Summarizer.StopWordSentenceUnscored` covers a sentence whose raw tokens are stopwords or tokens the first pass never produced. Because the two passes tokenise different texts, a sentence whose cleaned tokens are all stopwords can still have a raw token that is not one and that another sentence contributed to the table. That sentence is then scored. Whether this happens depends on the tokenizer, which is a parameter here, so the model makes no tokenizer-specific promise.
- Empty text: that `sent_tokenize("")` returns no sentences is a property of the tokenizer, which is a parameter here. `Summarizer.ExtractiveSummarization` promises the empty summary for an empty sentence list.
- Python integer and string sizes are unbounded, and so are the model's; no overflow is modelled because none exists in the source.
