# CountVectorizer in Dafny

This project models `CountVectorizer` from `count_vectorizer.py`. It is a bag-of-words vectorizer with two steps:

- **Fitting** collects the feature names of a corpus. These are the space-separated words, lower-cased when `is_lower` is set. Fitting then numbers the feature names 0, 1, 2, … in ascending string order, which is the vocabulary.
- **Transforming** turns a corpus into a matrix with one row per document and one column per vocabulary entry. Each entry counts how often that word occurs in the document.

The vectorizer is a class whose fields change in place, so the model is an imperative `class CountVectorizer`. Each of its methods is proved against value-level specification functions:

| file | module | contents |
|---|---|---|
| `pystr.dfy` | `PyStr` | The three Python `str` operations the code uses: `<` (code-point lexicographic order), `lower()` and `split(' ')`, with `Join` as the inverse of `Split`. |
| `ranking.dfy` | `Ranking` | `sorted(...)` modelled as `Sorted`. The vocabulary `fit` builds is modelled as `RankMap`, which maps each name to its rank: the number of names smaller than it. Lemmas prove that the numbering is dense, injective and order-preserving. |
| `bag_of_words.dfy` | `BagOfWords` | The tokens of a document, the feature names of a corpus, the per-document counter dictionary, and the count matrix over the sorted names. Lemmas cover the matrix entries and the row sums. |
| `count_vectorizer.dfy` | `Vectorizer` | The class: `__init__`, `fit`, `transform`, `fit_transform` and `get_feature_names`. The document loops of `fit` and `transform` stay inside `Fit` and `Transform`. `AddTokens`, `CountTokens` and `WriteCounts` are the inner loops, and `CountDocument` is the body of `transform`'s loop. `Renumber` is `fit`'s second loop, which runs once, after the first. |
| `demo.dfy` | `Demo` | The two-document example of the module's `__main__` block, plus two small examples: case folding, and a token outside the vocabulary. |

The class invariant `Valid()` states that the vocabulary is `RankMap(featureNames)`. Every public method (`Fit`, `Transform`, `FitTransform`) requires it and keeps it, and the constructor establishes it. Within `Fit`, `AddTokens` breaks it until `Renumber` restores it.

**Fitting accumulates.** The feature-name set is created once, in `__init__`, and `fit` only adds to it (lines 17 and 31). A second `fit` therefore keeps the names of the first and renumbers the union. The model follows the code: `Fit` ensures `featureNames == old(featureNames) + CorpusTokens(corpus, isLower)`.

## Model

| member | source | states |
|---|---|---|
| PyStr.Less | count_vectorizer.py:33 | Python's `<` on `str`: lexicographic by code point, with a proper prefix smaller. |
| PyStr.LessIrreflexive | count_vectorizer.py:33 | No string is smaller than itself. |
| PyStr.LessTransitive | count_vectorizer.py:33 | The string order is transitive. |
| PyStr.LessTotal | count_vectorizer.py:33 | Any two distinct strings are ordered one way or the other, so `sorted` has one answer. |
| PyStr.LessAsymmetric | count_vectorizer.py:33 | Two strings are never each smaller than the other. |
| PyStr.LowerChar | count_vectorizer.py:30 | An ASCII capital maps to its small letter; every other character is unchanged. |
| PyStr.Lower | count_vectorizer.py:29-30 | Same length; no ASCII capital remains; characters that were not capitals are kept. |
| PyStr.Split | count_vectorizer.py:28 | `split(' ')` always yields at least one piece. |
| PyStr.SplitPiecesHaveNoSpace | count_vectorizer.py:28 | No piece of `split(' ')` contains a space. |
| PyStr.JoinSplit | count_vectorizer.py:28 | Joining the pieces with single spaces gives the original text back. |
| PyStr.SplitWordPrefix | count_vectorizer.py:28 | A word without spaces at the front of a text becomes part of the text's first piece. |
| PyStr.SplitJoin | count_vectorizer.py:28 | Splitting space-free words joined by single spaces gives the words back. |
| PyStr.SplitLength | count_vectorizer.py:28 | A text has one more piece than it has spaces. |
| PyStr.SplitEmptyPieces | count_vectorizer.py:28 | A doubled space gives an empty piece between the words (`"a  b"` gives `a`, `""`, `b`). A leading space and a trailing space each give an empty piece too. |
| Ranking.Least | count_vectorizer.py:33 | The least name of a non-empty set is a member of the set and smaller than every other member. |
| Ranking.LeastExists | count_vectorizer.py:33 | Every non-empty set of names has a least element. |
| Ranking.LeastUnique | count_vectorizer.py:33 | The least element is unique. |
| Ranking.Sorted | count_vectorizer.py:33 | `sorted(list(feature_names))` has as many entries as the set has names. |
| Ranking.SortedMembers | count_vectorizer.py:33 | The sorted list holds exactly the names of the set. |
| Ranking.SortedAscending | count_vectorizer.py:33 | The sorted list is strictly ascending in string order. |
| Ranking.RankMap | count_vectorizer.py:33-34 | The vocabulary `fit` builds is keyed by exactly the feature names. |
| Ranking.DistinctPrefixCard | count_vectorizer.py:33 | The first `k` entries of a list without duplicates form a set of `k` names. |
| Ranking.SortedDistinct | count_vectorizer.py:33 | The sorted list has no duplicates. |
| Ranking.SortedSmaller | count_vectorizer.py:33-34 | The names smaller than the one at position `k` are exactly those before it. |
| Ranking.SortedRank | count_vectorizer.py:33-34 | The name at position `k` of the sorted list has rank `k`, which is the index `enumerate` gives it. |
| Ranking.RankMapAt | count_vectorizer.py:33-34 | The vocabulary maps the `k`-th sorted name to `k`. |
| Ranking.RankMapOf | count_vectorizer.py:33-34 | Every name's index is in range, and the sorted list has that name at that index. |
| Ranking.RankMapIndexing | count_vectorizer.py:33-34 | The vocabulary and the sorted list are inverse to each other. |
| Ranking.Renumbered | count_vectorizer.py:33-34 | Writing `sorted[k] -> k` over an older vocabulary keyed by feature names overwrites every old entry, so the result is the rank vocabulary. |
| Ranking.RankMapDense | count_vectorizer.py:33-34 | The indices are exactly 0 … n-1, with no gaps. |
| Ranking.RankMapIsSortedIndexing | count_vectorizer.py:33-34 | The rank vocabulary has keys equal to the names, dense indices, and an order that agrees with string order. |
| Ranking.RankMapInjective | count_vectorizer.py:33-34 | No two names share an index. |
| Ranking.RankMapOrder | count_vectorizer.py:33-34 | `a < b` if and only if `vocabulary[a] < vocabulary[b]`. |
| BagOfWords.TokensShape | count_vectorizer.py:28-30 | About the tokens of a document: the pieces of `split(' ')`, lower-cased when `is_lower` is set, as `Tokens` and `Normalize` define them (lines 28-30 and 49-51). There is one more token than the text has spaces, and no token holds a space. Lower-cased tokens hold no ASCII capital. Without lower-casing, joining the tokens with single spaces gives the text back. |
| BagOfWords.TokensOfJoin | count_vectorizer.py:28-30 | The tokens of space-free words joined by single spaces are those words, normalized. |
| BagOfWords.CounterExtend | count_vectorizer.py:52-56 | One step of the counting loop: a vocabulary word adds one to its entry, or creates it at 1; any other word leaves the counter unchanged. |
| BagOfWords.TokenSetExtend | count_vectorizer.py:31 | One step of `fit`'s inner loop adds the current token to the set. |
| BagOfWords.CorpusTokensMembers | count_vectorizer.py:27-31 | A word is among a corpus's feature names if and only if some document has it as a token. |
| BagOfWords.CountedRow | count_vectorizer.py:46-60 | A zero row whose vocabulary columns received the counter's counts is the row of occurrence counts over the sorted names. |
| BagOfWords.CountMatrixEntry | count_vectorizer.py:46-61 | The matrix is `len(corpus)` by `len(feature_names)`, and the entry in row `d` at `vocabulary[w]` is the number of occurrences of `w` in document `d`. |
| BagOfWords.RowSumAppend | count_vectorizer.py:52-56 | One more token raises the row sum by one if it has a column, and leaves the sum unchanged otherwise. |
| BagOfWords.RowSumBound | count_vectorizer.py:46-61 | A row never sums to more than the number of tokens, and sums to exactly that number when every token has a column. |
| BagOfWords.ZeroRowSum | count_vectorizer.py:46 | A row with no tokens sums to zero. |
| BagOfWords.CountMatrixRowSum | count_vectorizer.py:46-61 | Row `d` sums to at most the number of space-separated tokens of document `d`, and to exactly that number when all of them are feature names. |
| Vectorizer.CountVectorizer.constructor | count_vectorizer.py:14-18 | Stores `is_lower` and starts with no feature names and an empty vocabulary, which satisfies the invariant. |
| Vectorizer.CountVectorizer.Fit | count_vectorizer.py:20-34 | Keeps the invariant and `is_lower`. The feature names become the old names plus every token of the corpus; in particular every normalized token of every document is a feature name. The vocabulary is keyed by exactly the feature names, with dense indices in string order. |
| Vectorizer.CountVectorizer.AddTokens | count_vectorizer.py:28-31 | The feature names gain exactly the tokens of one document. |
| Vectorizer.CountVectorizer.Renumber | count_vectorizer.py:33-34 | After the renumbering loop, the vocabulary is the rank vocabulary of the feature names. |
| Vectorizer.CountVectorizer.CountTokens | count_vectorizer.py:48-56 | The counter holds each vocabulary word that occurs in the document, with its occurrence count; other words have no entry. |
| Vectorizer.CountVectorizer.WriteCounts | count_vectorizer.py:57-60 | Each counted word that has an index (the `get` test at lines 58-59) gets its count at that column. Every other column keeps its value, including columns no vocabulary word maps to. |
| Vectorizer.CountVectorizer.CountDocument | count_vectorizer.py:47-60 | A document's row holds, for each sorted feature name, how often it occurs in the document. |
| Vectorizer.CountVectorizer.Transform | count_vectorizer.py:36-61 | Returns the count matrix, of `len(corpus)` rows by `len(feature_names)` columns, and changes no field. See `BagOfWords.CountMatrixEntry` for the entries. |
| Vectorizer.CountVectorizer.FitTransform | count_vectorizer.py:63-74 | Gives the same state as `Fit` and the same matrix as `Transform` on the fitted state. Every row has one entry per feature name and sums to its document's number of tokens. |
| Vectorizer.CountVectorizer.GetFeatureNames | count_vectorizer.py:76-83 | The returned names are exactly the keys of the vocabulary. |
| Demo.Tokens1 | count_vectorizer.py:89 | The first demo document has 7 tokens, lower-cased as listed. |
| Demo.Tokens2 | count_vectorizer.py:90 | The second demo document has 7 tokens, lower-cased as listed. |
| Demo.CorpusNames | count_vectorizer.py:88-91 | The demo corpus contributes exactly the 12 lower-cased words. |
| Demo.RunDemo | count_vectorizer.py:86-94 | `fit_transform` on the demo corpus gives exactly the 12 lower-cased words as feature names, and a 2 × 12 matrix whose rows each sum to 7. |
| Demo.SingleDocument | count_vectorizer.py:27-31 | A one-document corpus contributes that document's tokens. |
| Demo.PastaNames | count_vectorizer.py:27-31 | With lower-casing, "Pasta pasta" contributes the single name "pasta". |
| Demo.PastaVocabulary | count_vectorizer.py:33-34 | The vocabulary of {"pasta"} is {"pasta": 0}. |
| Demo.CaseFoldingDemo | count_vectorizer.py:14-34 | Fitting "Pasta pasta" yields the feature names {"pasta"} and the vocabulary {"pasta": 0}. |
| Demo.SortedAB | count_vectorizer.py:33 | `sorted({"a", "b"})` is `["a", "b"]`. |
| Demo.ABNames | count_vectorizer.py:27-31 | "a b" contributes the names "a" and "b". |
| Demo.ACMatrix | count_vectorizer.py:46-61 | Over the names {"a", "b"}, "a c" gives the matrix [[1, 0]]. |
| Demo.UnknownTokenDemo | count_vectorizer.py:20-61 | Fitted on "a b", transforming "a c" counts "a" and ignores "c", with no new column. |

## Left out

- The default `is_lower=True` (line 14) is not modelled. Dafny constructors have no default arguments, so the constructor takes the flag explicitly, and `Demo` passes `true` where the source calls `CountVectorizer()`.
- The `encoding` constructor argument (line 15) is stored but never read, so the model has no such field.
- Only ASCII is lower-cased: `Lower` maps 'A'..'Z' to 'a'..'z'. Python's `str.lower()` applies the full Unicode case mapping, which can also change a string's length.
- `sorted` is modelled by its result (the least name first, then the rest sorted), not by its algorithm (Timsort).
- `get_feature_names` returns the object's own set, so a caller that mutates it changes the vectorizer. The model returns a value, so this aliasing is not captured.
- `for word, count in counter.items()` (line 57) visits keys in dictionary order. `WriteCounts` visits them in an unspecified order. Every word has its own column, so the order does not change the result.
- `fit` and `transform` are single methods in the source. Here `AddTokens`, `CountTokens` and `WriteCounts` are the inner loops, and `CountDocument` is the body of `transform`'s loop; each runs once per document. `Renumber` is `fit`'s second loop and runs once, after the first. Each helper runs the statements of its part of the source, in the source's order.
- `print` in the `__main__` block (lines 93-94) is output only. In `Demo`, each document text is written as its words joined by single spaces, which is the same string.
- Concurrency is not modelled. Neither are inputs that are not strings, which Python rejects at run time.
