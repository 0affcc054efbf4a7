/**
 The bag-of-words vectorizer: `fit` learns feature names from a corpus and
 numbers them in sorted order, `transform` turns a corpus into a matrix of
 per-document token counts over that numbering.
 */
module Vectorizer {
  import opened PyStr
  import opened Ranking
  import opened BagOfWords

  class CountVectorizer {
    var isLower: bool
    var featureNames: set<string>
    var vocabulary: map<string, nat>

    /** The vocabulary always numbers the feature names by rank. */
    ghost predicate Valid()
      reads this
    {
      vocabulary == RankMap(featureNames)
    }

    constructor (isLower: bool)
      ensures Valid()
      ensures this.isLower == isLower && featureNames == {} && vocabulary == map[]
    {
      this.isLower := isLower;
      featureNames := {};
      vocabulary := map[];
    }

    /** Adds every token of the corpus to the feature names (keeping those of
        earlier calls), then renumbers all of them in sorted order. */
    method Fit(corpus: seq<string>)
      requires Valid()
      modifies this
      ensures Valid()
      ensures isLower == old(isLower)
      ensures featureNames == old(featureNames) + CorpusTokens(corpus, isLower)
      ensures forall d, i :: 0 <= d < |corpus| && 0 <= i < |Split(corpus[d])| ==>
        Normalize(Split(corpus[d])[i], isLower) in featureNames
      ensures IsSortedIndexing(vocabulary, featureNames)
    {
      for i := 0 to |corpus|
        invariant isLower == old(isLower) && vocabulary == old(vocabulary)
        invariant featureNames == old(featureNames) + CorpusTokens(corpus[..i], isLower)
      {
        AddTokens(corpus[i]);
        assert corpus[..i + 1][..i] == corpus[..i];
      }
      assert corpus[..|corpus|] == corpus;
      Renumber();
      RankMapIsSortedIndexing(featureNames);
      forall d, i | 0 <= d < |corpus| && 0 <= i < |Split(corpus[d])|
        ensures Normalize(Split(corpus[d])[i], isLower) in featureNames
      {
        var tokens := Tokens(corpus[d], isLower);
        assert tokens[i] in tokens;
        CorpusTokensMembers(corpus, isLower, tokens[i]);
      }
    }

    /** The inner loop of `fit` over one document: each of its tokens is
        lower-cased if configured and added to the feature names. */
    method AddTokens(text: string)
      modifies this`featureNames
      ensures featureNames == old(featureNames) + TokenSet(Tokens(text, isLower))
    {
      var words := Split(text);
      ghost var tokens := Tokens(text, isLower);
      for j := 0 to |words|
        invariant featureNames == old(featureNames) + TokenSet(tokens[..j])
      {
        var word := words[j];
        if isLower {
          word := Lower(word);
        }
        TokenSetExtend(tokens, j);
        featureNames := featureNames + {word};
      }
      assert tokens[..|words|] == tokens;
    }

    /** The second loop of `fit`: number the sorted feature names 0, 1, 2, ...,
        overwriting the index of every name the vocabulary already had. */
    method Renumber()
      requires vocabulary.Keys <= featureNames
      modifies this`vocabulary
      ensures vocabulary == RankMap(featureNames)
    {
      var sortedNames := Sorted(featureNames);
      ghost var before := vocabulary;
      SortedDistinct(featureNames);
      for index := 0 to |sortedNames|
        invariant forall w :: w in vocabulary <==> w in before || w in sortedNames[..index]
        invariant forall k :: 0 <= k < index ==> vocabulary[sortedNames[k]] == k
      {
        vocabulary := vocabulary[sortedNames[index] := index];
        assert sortedNames[..index + 1] == sortedNames[..index] + [sortedNames[index]];
      }
      assert sortedNames[..|sortedNames|] == sortedNames;
      Renumbered(before, vocabulary, featureNames);
    }

    /** The counting loop of `transform` for one document: how often each
        vocabulary word occurs among its tokens; words that do not occur get
        no entry. */
    method CountTokens(text: string) returns (counter: map<string, nat>)
      ensures counter == Counter(vocabulary, Tokens(text, isLower))
    {
      counter := map[];
      var words := Split(text);
      ghost var tokens := Tokens(text, isLower);
      for j := 0 to |words|
        invariant counter == Counter(vocabulary, tokens[..j])
      {
        var word := words[j];
        if isLower {
          word := Lower(word);
        }
        CounterExtend(vocabulary, tokens, j);
        if word in vocabulary {
          if word in counter {
            counter := counter[word := counter[word] + 1];
          } else {
            counter := counter[word := 1];
          }
        }
      }
      assert tokens[..|words|] == tokens;
    }

    /** The writing loop of `transform` for one document: the count of each
        word of the counter goes to that word's column; other entries stay.
        A counter word without an index is skipped. */
    method WriteCounts(row: seq<nat>, counter: map<string, nat>) returns (filled: seq<nat>)
      requires forall w :: w in vocabulary ==> vocabulary[w] < |row|
      requires forall a, b :: a in vocabulary && b in vocabulary && a != b ==> vocabulary[a] != vocabulary[b]
      ensures |filled| == |row|
      ensures forall w :: w in vocabulary ==>
        filled[vocabulary[w]] == if w in counter then counter[w] else row[vocabulary[w]]
      ensures forall k :: 0 <= k < |row| && k !in vocabulary.Values ==> filled[k] == row[k]
    {
      filled := row;
      var pending := counter.Keys;
      while pending != {}
        invariant pending <= counter.Keys
        invariant |filled| == |row|
        invariant forall w :: w in vocabulary ==>
          filled[vocabulary[w]] == if w in counter && w !in pending then counter[w] else row[vocabulary[w]]
        invariant forall k :: 0 <= k < |row| && k !in vocabulary.Values ==> filled[k] == row[k]
        decreases pending
      {
        var word :| word in pending;
        if word in vocabulary {
          var wordIndex := vocabulary[word];
          filled := filled[wordIndex := counter[word]];
        }
        pending := pending - {word};
      }
    }

    /** The body of `transform`'s loop for one document: count its tokens,
        then write the counts into its zero row. */
    method CountDocument(text: string, zeros: seq<nat>) returns (row: seq<nat>)
      requires Valid()
      requires |zeros| == |vocabulary| && forall k :: 0 <= k < |zeros| ==> zeros[k] == 0
      ensures row == CountRow(Sorted(featureNames), Tokens(text, isLower))
    {
      forall w | w in vocabulary
        ensures vocabulary[w] < |zeros|
      {
        RankMapOf(featureNames, w);
      }
      assert forall a, b :: a in vocabulary && b in vocabulary && a != b ==> vocabulary[a] != vocabulary[b] by {
        RankMapInjective(featureNames);
      }
      var counter := CountTokens(text);
      row := WriteCounts(zeros, counter);
      CountedRow(featureNames, vocabulary, counter, Tokens(text, isLower), zeros, row);
    }

    /** The count matrix of a corpus: one row per document, one column per
        vocabulary entry; tokens outside the vocabulary are skipped. */
    method Transform(corpus: seq<string>) returns (matrix: seq<seq<nat>>)
      requires Valid()
      ensures matrix == CountMatrix(corpus, isLower, featureNames)
      ensures |matrix| == |corpus| && forall d :: 0 <= d < |corpus| ==> |matrix[d]| == |featureNames|
    {
      ghost var columns := Sorted(featureNames);
      var width := |vocabulary|;
      matrix := seq(|corpus|, _ => seq(width, _ => 0));
      for textIndex := 0 to |corpus|
        invariant |matrix| == |corpus|
        invariant forall d :: 0 <= d < textIndex ==> matrix[d] == CountRow(columns, Tokens(corpus[d], isLower))
        invariant forall d :: textIndex <= d < |corpus| ==> matrix[d] == seq(width, _ => 0)
      {
        var row := CountDocument(corpus[textIndex], matrix[textIndex]);
        matrix := matrix[textIndex := row];
      }
    }

    /** `fit` followed by `transform` on the same corpus. */
    method FitTransform(corpus: seq<string>) returns (matrix: seq<seq<nat>>)
      requires Valid()
      modifies this
      ensures Valid()
      ensures isLower == old(isLower)
      ensures featureNames == old(featureNames) + CorpusTokens(corpus, isLower)
      ensures matrix == CountMatrix(corpus, isLower, featureNames)
      ensures |matrix| == |corpus|
      ensures forall d :: 0 <= d < |corpus| ==>
        |matrix[d]| == |featureNames| && Sum(matrix[d]) == |Split(corpus[d])|
    {
      Fit(corpus);
      matrix := Transform(corpus);
      forall d | 0 <= d < |corpus|
        ensures Sum(matrix[d]) == |Split(corpus[d])|
      {
        var tokens := Tokens(corpus[d], isLower);
        forall t | t in TokenSet(tokens)
          ensures t in featureNames
        {
          CorpusTokensMembers(corpus, isLower, t);
        }
        CountMatrixRowSum(corpus, isLower, featureNames, d);
      }
    }

    /** The learned feature names: exactly the keys of the vocabulary. */
    function GetFeatureNames(): (names: set<string>)
      reads this
      requires Valid()
      ensures names == vocabulary.Keys
    {
      featureNames
    }
  }
}
