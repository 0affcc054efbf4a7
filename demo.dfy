/**
 The two-document corpus of the module's own `__main__` block, run through
 `fit_transform` with lower-casing on.
 */
module Demo {
  import opened PyStr
  import opened Ranking
  import opened BagOfWords
  import opened Vectorizer

  /** "Crock Pot Pasta Never boil pasta again" */
  const Words1: seq<string> := ["Crock", "Pot", "Pasta", "Never", "boil", "pasta", "again"]
  /** "Pasta Pomodoro Fresh ingredients Parmesan to taste" */
  const Words2: seq<string> := ["Pasta", "Pomodoro", "Fresh", "ingredients", "Parmesan", "to", "taste"]

  /** The lower-cased words of both documents, each once. */
  const DemoNames: set<string> := {"crock", "pot", "pasta", "never", "boil", "again",
                                   "pomodoro", "fresh", "ingredients", "parmesan", "to", "taste"}

  const Lowered1: seq<string> := ["crock", "pot", "pasta", "never", "boil", "pasta", "again"]
  const Lowered2: seq<string> := ["pasta", "pomodoro", "fresh", "ingredients", "parmesan", "to", "taste"]

  lemma LowerWords1()
    ensures forall i :: 0 <= i < 7 ==> Lower(Words1[i]) == Lowered1[i]
  {
    assert Lower("Crock") == "crock" && Lower("Pot") == "pot" && Lower("Pasta") == "pasta";
    assert Lower("Never") == "never" && Lower("boil") == "boil" && Lower("pasta") == "pasta";
    assert Lower("again") == "again";
  }

  lemma LowerWords2()
    ensures forall i :: 0 <= i < 7 ==> Lower(Words2[i]) == Lowered2[i]
  {
    assert Lower("Pasta") == "pasta" && Lower("Pomodoro") == "pomodoro" && Lower("Fresh") == "fresh";
    assert Lower("ingredients") == "ingredients" && Lower("Parmesan") == "parmesan";
    assert Lower("to") == "to" && Lower("taste") == "taste";
  }

  /** The lower-cased tokens of the first document. */
  lemma Tokens1()
    ensures |Split(Join(Words1))| == 7
    ensures Tokens(Join(Words1), true) == Lowered1
  {
    TokensOfJoin(Words1, true);
    LowerWords1();
  }

  /** The lower-cased tokens of the second document. */
  lemma Tokens2()
    ensures |Split(Join(Words2))| == 7
    ensures Tokens(Join(Words2), true) == Lowered2
  {
    TokensOfJoin(Words2, true);
    LowerWords2();
  }

  /** The corpus contributes exactly the twelve lower-cased words. */
  lemma CorpusNames(corpus: seq<string>)
    requires corpus == [Join(Words1), Join(Words2)]
    ensures CorpusTokens(corpus, true) == DemoNames
  {
    Tokens1();
    Tokens2();
    var first := corpus[..1];
    assert first[..0] == [];
    assert CorpusTokens(first, true) == TokenSet(Tokens(corpus[0], true));
    assert corpus[..|corpus| - 1] == first;
  }

  lemma DemoNamesCount()
    ensures |DemoNames| == 12
  {
  }

  /** A fresh vectorizer fitted on the demo corpus has twelve feature names,
      and the count matrix has two rows of twelve entries, each summing to the
      seven words of its document. */
  method RunDemo() returns (names: set<string>, matrix: seq<seq<nat>>)
    ensures names == DemoNames && |names| == 12
    ensures |matrix| == 2
    ensures |matrix[0]| == 12 && Sum(matrix[0]) == 7
    ensures |matrix[1]| == 12 && Sum(matrix[1]) == 7
  {
    var vectorizer := new CountVectorizer(true);
    var corpus := [Join(Words1), Join(Words2)];
    matrix := vectorizer.FitTransform(corpus);
    names := vectorizer.GetFeatureNames();
    assert names == CorpusTokens(corpus, true);
    assert names == DemoNames by {
      CorpusNames(corpus);
    }
    assert |names| == 12 by {
      DemoNamesCount();
    }
    assert |Split(corpus[0])| == 7 by {
      Tokens1();
    }
    assert |Split(corpus[1])| == 7 by {
      Tokens2();
    }
  }

  /** The corpus tokens of a single document. */
  lemma SingleDocument(text: string, isLower: bool)
    ensures CorpusTokens([text], isLower) == TokenSet(Tokens(text, isLower))
  {
    assert [text][..0] == [];
  }

  lemma LowerShortWords()
    ensures Lower("Pasta") == "pasta" && Lower("pasta") == "pasta"
    ensures Lower("a") == "a" && Lower("b") == "b" && Lower("c") == "c"
  {
  }

  /** Splits two words without spaces and lower-cases them. */
  lemma TwoTokens(x: string, y: string)
    requires ' ' !in x && ' ' !in y
    ensures Tokens(Join([x, y]), true) == [Lower(x), Lower(y)]
  {
    TokensOfJoin([x, y], true);
  }

  lemma PastaNames()
    ensures CorpusTokens([Join(["Pasta", "pasta"])], true) == {"pasta"}
  {
    TwoTokens("Pasta", "pasta");
    LowerShortWords();
    SingleDocument(Join(["Pasta", "pasta"]), true);
  }

  lemma PastaVocabulary()
    ensures RankMap({"pasta"}) == map["pasta" := 0]
  {
    LessIrreflexive("pasta");
    assert Smaller({"pasta"}, "pasta") == {};
  }

  /** With lower-casing, "Pasta pasta" yields the single feature name "pasta",
      numbered 0. */
  method CaseFoldingDemo() returns (names: set<string>, vocabulary: map<string, nat>)
    ensures names == {"pasta"} && vocabulary == map["pasta" := 0]
  {
    var vectorizer := new CountVectorizer(true);
    vectorizer.Fit([Join(["Pasta", "pasta"])]);
    names := vectorizer.GetFeatureNames();
    vocabulary := vectorizer.vocabulary;
    PastaNames();
    PastaVocabulary();
  }

  /** `sorted` on {"a", "b"}. */
  lemma SortedAB()
    ensures Sorted({"a", "b"}) == ["a", "b"]
  {
    var m := Least({"a", "b"});
    if m == "b" {
      assert Less("b", "a");
      assert false;
    }
    assert {"a", "b"} - {"a"} == {"b"};
    assert Least({"b"}) == "b";
    assert {"b"} - {"b"} == {};
  }

  lemma ABNames()
    ensures CorpusTokens([Join(["a", "b"])], true) == {"a", "b"}
  {
    TwoTokens("a", "b");
    LowerShortWords();
    SingleDocument(Join(["a", "b"]), true);
  }

  lemma ACMatrix()
    ensures CountMatrix([Join(["a", "c"])], true, {"a", "b"}) == [[1, 0]]
  {
    TwoTokens("a", "c");
    LowerShortWords();
    var tokens := Tokens(Join(["a", "c"]), true);
    assert tokens == ["a", "c"];
    SortedAB();
    assert multiset(tokens)["a"] == 1 && multiset(tokens)["b"] == 0;
    assert CountRow(["a", "b"], tokens) == [1, 0];
  }

  /** Fitted on "a b", transforming "a c" counts the "a" and ignores "c":
      the matrix is [[1, 0]]. */
  method UnknownTokenDemo() returns (matrix: seq<seq<nat>>)
    ensures matrix == [[1, 0]]
  {
    var vectorizer := new CountVectorizer(true);
    vectorizer.Fit([Join(["a", "b"])]);
    ABNames();
    matrix := vectorizer.Transform([Join(["a", "c"])]);
    ACMatrix();
  }
}
