/**
 What `fit` and `transform` compute, stated as values: the tokens of a
 document, the feature names a corpus contributes, and the count matrix over
 the sorted feature names.
 */
module BagOfWords {
  import opened PyStr
  import opened Ranking

  /** A word as the vectorizer sees it: lower-cased when `isLower` is set. */
  function Normalize(word: string, isLower: bool): string
  {
    if isLower then Lower(word) else word
  }

  /** The tokens of one document, in order: its space-separated pieces, normalized. */
  function Tokens(text: string, isLower: bool): seq<string>
  {
    var words := Split(text);
    seq(|words|, i requires 0 <= i < |words| => Normalize(words[i], isLower))
  }

  /** What tokenizing promises: one token more than the text has spaces, no
      token holds a space, lower-cased tokens hold no ASCII capital, and
      without lower-casing the tokens joined by single spaces are the text. */
  lemma TokensShape(text: string, isLower: bool)
    ensures |Tokens(text, isLower)| == multiset(text)[' '] + 1
    ensures forall i :: 0 <= i < |Tokens(text, isLower)| ==> ' ' !in Tokens(text, isLower)[i]
    ensures isLower ==> forall i, k :: 0 <= i < |Tokens(text, isLower)| && 0 <= k < |Tokens(text, isLower)[i]| ==>
      !('A' <= Tokens(text, isLower)[i][k] <= 'Z')
    ensures !isLower ==> Join(Tokens(text, isLower)) == text
  {
    var tokens := Tokens(text, isLower);
    SplitLength(text);
    SplitPiecesHaveNoSpace(text);
    if !isLower {
      assert tokens == Split(text);
      JoinSplit(text);
    }
  }

  /** The tokens of words joined by single spaces are those words, normalized. */
  lemma TokensOfJoin(words: seq<string>, isLower: bool)
    requires |words| >= 1
    requires forall i :: 0 <= i < |words| ==> ' ' !in words[i]
    ensures |Split(Join(words))| == |words|
    ensures forall i :: 0 <= i < |words| ==> Tokens(Join(words), isLower)[i] == Normalize(words[i], isLower)
  {
    SplitJoin(words);
  }

  function TokenSet(tokens: seq<string>): set<string>
  {
    set t | t in tokens
  }

  /** What the per-document `counter` dictionary of `transform` holds once it
      has seen `tokens`: each vocabulary word that occurs, with its number of
      occurrences. */
  ghost function Counter(vocabulary: map<string, nat>, tokens: seq<string>): map<string, nat>
  {
    map w | w in vocabulary && w in multiset(tokens) :: multiset(tokens)[w]
  }

  /** One step of the counting loop: a vocabulary token adds one to its entry
      (creating it at 1), any other token changes nothing. */
  lemma CounterExtend(vocabulary: map<string, nat>, tokens: seq<string>, j: nat)
    requires j < |tokens|
    ensures var counter, x := Counter(vocabulary, tokens[..j]), tokens[j];
      Counter(vocabulary, tokens[..j + 1]) ==
        if x !in vocabulary then counter
        else if x in counter then counter[x := counter[x] + 1]
        else counter[x := 1]
  {
    assert tokens[..j + 1] == tokens[..j] + [tokens[j]];
  }

  lemma TokenSetExtend(tokens: seq<string>, j: nat)
    requires j < |tokens|
    ensures TokenSet(tokens[..j + 1]) == TokenSet(tokens[..j]) + {tokens[j]}
  {
    assert tokens[..j + 1] == tokens[..j] + [tokens[j]];
  }

  /** The distinct tokens of all documents of a corpus. */
  ghost function CorpusTokens(corpus: seq<string>, isLower: bool): set<string>
    decreases |corpus|
  {
    if corpus == [] then {}
    else CorpusTokens(corpus[..|corpus| - 1], isLower) + TokenSet(Tokens(corpus[|corpus| - 1], isLower))
  }

  /** A token belongs to the corpus tokens exactly when some document has it. */
  lemma {:induction false} CorpusTokensMembers(corpus: seq<string>, isLower: bool, t: string)
    ensures t in CorpusTokens(corpus, isLower) <==>
      exists d :: 0 <= d < |corpus| && t in Tokens(corpus[d], isLower)
    decreases |corpus|
  {
    if corpus != [] {
      var init := corpus[..|corpus| - 1];
      CorpusTokensMembers(init, isLower, t);
      if t in CorpusTokens(corpus, isLower) {
        if t !in CorpusTokens(init, isLower) {
          assert t in Tokens(corpus[|corpus| - 1], isLower);
        } else {
          var d :| 0 <= d < |init| && t in Tokens(init[d], isLower);
          assert corpus[d] == init[d];
        }
      } else {
        forall d | 0 <= d < |corpus|
          ensures t !in Tokens(corpus[d], isLower)
        {
          if d < |init| {
            assert corpus[d] == init[d];
          }
        }
      }
    }
  }

  /** One row of the count matrix: column `j` holds how many tokens equal the
      `j`-th column name. */
  ghost function CountRow(columns: seq<string>, tokens: seq<string>): seq<nat>
  {
    seq(|columns|, j requires 0 <= j < |columns| => multiset(tokens)[columns[j]])
  }

  /** A zero row whose vocabulary columns received the counter's counts is
      the count row of the tokens. */
  lemma CountedRow(names: set<string>, vocabulary: map<string, nat>, counter: map<string, nat>,
                   tokens: seq<string>, zeros: seq<nat>, row: seq<nat>)
    requires vocabulary == RankMap(names)
    requires counter == Counter(vocabulary, tokens)
    requires |zeros| == |row| == |names| && forall k :: 0 <= k < |zeros| ==> zeros[k] == 0
    requires forall w :: w in vocabulary ==>
      vocabulary[w] < |row| && row[vocabulary[w]] == if w in counter then counter[w] else zeros[vocabulary[w]]
    ensures row == CountRow(Sorted(names), tokens)
  {
    var columns := Sorted(names);
    forall k | 0 <= k < |row|
      ensures row[k] == multiset(tokens)[columns[k]]
    {
      RankMapAt(names, k);
      assert vocabulary[columns[k]] == k;
    }
  }

  /** The count matrix of a corpus over the sorted feature names. */
  ghost function CountMatrix(corpus: seq<string>, isLower: bool, names: set<string>): seq<seq<nat>>
  {
    var columns := Sorted(names);
    seq(|corpus|, d requires 0 <= d < |corpus| => CountRow(columns, Tokens(corpus[d], isLower)))
  }

  /** The entry at a name's vocabulary index counts that name's occurrences. */
  lemma CountMatrixEntry(corpus: seq<string>, isLower: bool, names: set<string>, d: nat, w: string)
    requires d < |corpus| && w in names
    ensures |CountMatrix(corpus, isLower, names)| == |corpus|
    ensures |CountMatrix(corpus, isLower, names)[d]| == |names|
    ensures RankMap(names)[w] < |names|
    ensures CountMatrix(corpus, isLower, names)[d][RankMap(names)[w]] == multiset(Tokens(corpus[d], isLower))[w]
  {
    RankMapOf(names, w);
  }

  function Sum(row: seq<nat>): nat
  {
    if row == [] then 0 else row[0] + Sum(row[1..])
  }

  predicate Distinct(columns: seq<string>)
  {
    forall i, j :: 0 <= i < j < |columns| ==> columns[i] != columns[j]
  }

  /** One more token adds one to the row sum when it has a column, nothing otherwise. */
  lemma {:induction false} RowSumAppend(columns: seq<string>, tokens: seq<string>, x: string)
    requires Distinct(columns)
    ensures Sum(CountRow(columns, tokens + [x])) == Sum(CountRow(columns, tokens)) + (if x in columns then 1 else 0)
    decreases |columns|
  {
    if columns != [] {
      var rest := columns[1..];
      RowSumAppend(rest, tokens, x);
      assert CountRow(columns, tokens)[1..] == CountRow(rest, tokens);
      assert CountRow(columns, tokens + [x])[1..] == CountRow(rest, tokens + [x]);
      assert multiset(tokens + [x]) == multiset(tokens) + multiset{x};
      assert x in columns <==> x == columns[0] || x in rest;
      if x == columns[0] {
        assert x !in rest;
      }
    }
  }

  /** A row never counts more than the document's tokens, and counts all of
      them when every token has a column. */
  lemma {:induction false} RowSumBound(columns: seq<string>, tokens: seq<string>)
    requires Distinct(columns)
    ensures Sum(CountRow(columns, tokens)) <= |tokens|
    ensures (forall i :: 0 <= i < |tokens| ==> tokens[i] in columns) ==>
      Sum(CountRow(columns, tokens)) == |tokens|
    decreases |tokens|
  {
    if tokens == [] {
      ZeroRowSum(columns);
    } else {
      var init := tokens[..|tokens| - 1];
      var x := tokens[|tokens| - 1];
      assert tokens == init + [x];
      RowSumBound(columns, init);
      RowSumAppend(columns, init, x);
    }
  }

  lemma {:induction false} ZeroRowSum(columns: seq<string>)
    ensures Sum(CountRow(columns, [])) == 0
    decreases |columns|
  {
    if columns != [] {
      ZeroRowSum(columns[1..]);
      assert CountRow(columns, [])[1..] == CountRow(columns[1..], []);
    }
  }

  /** Row-sum bound of the count matrix: at most the number of space-separated
      tokens of the document, exactly that many when all of them are feature names. */
  lemma CountMatrixRowSum(corpus: seq<string>, isLower: bool, names: set<string>, d: nat)
    requires d < |corpus|
    ensures |CountMatrix(corpus, isLower, names)| == |corpus|
    ensures Sum(CountMatrix(corpus, isLower, names)[d]) <= |Split(corpus[d])|
    ensures TokenSet(Tokens(corpus[d], isLower)) <= names ==>
      Sum(CountMatrix(corpus, isLower, names)[d]) == |Split(corpus[d])|
  {
    var columns := Sorted(names);
    var tokens := Tokens(corpus[d], isLower);
    SortedDistinct(names);
    SortedMembers(names);
    RowSumBound(columns, tokens);
    if TokenSet(tokens) <= names {
      forall i | 0 <= i < |tokens|
        ensures tokens[i] in columns
      {
        assert tokens[i] in TokenSet(tokens);
      }
    }
  }
}
