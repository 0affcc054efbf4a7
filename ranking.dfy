/**
 Numbering a set of feature names in ascending string order, as
 `enumerate(sorted(list(feature_names)))` does. The index a name receives is
 its rank: how many names of the set are smaller than it.
 */
module Ranking {
  import opened PyStr

  /** `m` is the smallest element of `names`. */
  predicate IsLeast(m: string, names: set<string>)
  {
    m in names && forall x :: x in names && x != m ==> Less(m, x)
  }

  lemma {:induction false} LeastExists(names: set<string>)
    requires names != {}
    ensures exists m :: IsLeast(m, names)
    decreases names
  {
    var y :| y in names;
    var rest := names - {y};
    if rest == {} {
      assert names == {y};
      assert IsLeast(y, names);
    } else {
      LeastExists(rest);
      var m :| IsLeast(m, rest);
      LessTotal(y, m);
      if Less(y, m) {
        forall x | x in names && x != y
          ensures Less(y, x)
        {
          if x != m {
            LessTransitive(y, m, x);
          }
        }
        assert IsLeast(y, names);
      } else {
        assert IsLeast(m, names);
      }
    }
  }

  lemma LeastUnique(names: set<string>)
    ensures forall a, b :: IsLeast(a, names) && IsLeast(b, names) ==> a == b
  {
    forall a, b | IsLeast(a, names) && IsLeast(b, names)
      ensures a == b
    {
      if a != b {
        LessAsymmetric(a, b);
      }
    }
  }

  /** The smallest feature name of a non-empty set. */
  function Least(names: set<string>): (m: string)
    requires names != {}
    ensures m in names
    ensures forall x {:trigger Less(m, x)} :: x in names && x != m ==> Less(m, x)
  {
    LeastExists(names);
    LeastUnique(names);
    var m :| m in names && IsLeast(m, names);
    m
  }

  /** `sorted(list(names))`: the least name first, then the rest sorted. */
  function Sorted(names: set<string>): (r: seq<string>)
    ensures |r| == |names|
    decreases names
  {
    if names == {} then []
    else
      var m := Least(names);
      [m] + Sorted(names - {m})
  }

  /** `Sorted` lists exactly the names. */
  lemma {:induction false} SortedMembers(names: set<string>)
    ensures forall w :: w in Sorted(names) <==> w in names
    decreases names
  {
    if names != {} {
      var m := Least(names);
      SortedMembers(names - {m});
      assert Sorted(names) == [m] + Sorted(names - {m});
    }
  }

  /** `Sorted` lists the names in strictly ascending order. */
  lemma {:induction false} SortedAscending(names: set<string>)
    ensures forall i, j :: 0 <= i < j < |Sorted(names)| ==> Less(Sorted(names)[i], Sorted(names)[j])
    decreases names
  {
    if names != {} {
      var m := Least(names);
      var rest := Sorted(names - {m});
      SortedAscending(names - {m});
      SortedMembers(names - {m});
      assert Sorted(names) == [m] + rest;
      forall j | 0 <= j < |rest|
        ensures Less(m, rest[j])
      {
        assert rest[j] in rest;
      }
    }
  }

  /** The names of the set that are smaller than `w`. */
  ghost function Smaller(names: set<string>, w: string): set<string>
  {
    set x | x in names && Less(x, w)
  }

  /** The number of names smaller than `w`. */
  ghost function Rank(w: string, names: set<string>): nat
  {
    |Smaller(names, w)|
  }

  /** The vocabulary `fit` builds: each name mapped to its rank. */
  ghost function RankMap(names: set<string>): (vocabulary: map<string, nat>)
    ensures vocabulary.Keys == names
  {
    map w | w in names :: Rank(w, names)
  }

  lemma {:induction false} DistinctPrefixCard(r: seq<string>, k: nat)
    requires k <= |r|
    requires forall i, j :: 0 <= i < j < |r| ==> r[i] != r[j]
    ensures |set i | 0 <= i < k :: r[i]| == k
  {
    if k > 0 {
      DistinctPrefixCard(r, k - 1);
      var before := set i | 0 <= i < k - 1 :: r[i];
      assert (set i | 0 <= i < k :: r[i]) == before + {r[k - 1]};
      assert r[k - 1] !in before;
    }
  }

  lemma SortedDistinct(names: set<string>)
    ensures forall i, j :: 0 <= i < j < |Sorted(names)| ==> Sorted(names)[i] != Sorted(names)[j]
  {
    var r := Sorted(names);
    SortedAscending(names);
    forall i, j | 0 <= i < j < |r|
      ensures r[i] != r[j]
    {
      LessIrreflexive(r[i]);
    }
  }

  /** The names smaller than the one at position `k` are those before it. */
  lemma SortedSmaller(names: set<string>, k: nat)
    requires k < |names|
    ensures Smaller(names, Sorted(names)[k]) == set i | 0 <= i < k :: Sorted(names)[i]
  {
    var r := Sorted(names);
    SortedAscending(names);
    SortedMembers(names);
    var smaller := Smaller(names, r[k]);
    var prefix := set i | 0 <= i < k :: r[i];
    forall x | x in smaller
      ensures x in prefix
    {
      assert x in r;
      var i :| 0 <= i < |r| && r[i] == x;
      if i == k {
        LessIrreflexive(x);
      } else if i > k {
        LessAsymmetric(r[k], r[i]);
      }
    }
    forall x | x in prefix
      ensures x in smaller
    {
      var i :| 0 <= i < k && r[i] == x;
      assert r[i] in r;
    }
  }

  /** The name at position `k` of the sorted list has rank `k`. */
  lemma SortedRank(names: set<string>, k: nat)
    requires k < |names|
    ensures Rank(Sorted(names)[k], names) == k
  {
    var r := Sorted(names);
    SortedDistinct(names);
    SortedSmaller(names, k);
    DistinctPrefixCard(r, k);
  }

  /** The name at position `k` of the sorted list is numbered `k`. */
  lemma RankMapAt(names: set<string>, k: nat)
    requires k < |names|
    ensures Sorted(names)[k] in names && RankMap(names)[Sorted(names)[k]] == k
  {
    SortedMembers(names);
    assert Sorted(names)[k] in Sorted(names);
    SortedRank(names, k);
  }

  /** A name's number is its position in the sorted list. */
  lemma RankMapOf(names: set<string>, w: string)
    requires w in names
    ensures RankMap(names)[w] < |names| && Sorted(names)[RankMap(names)[w]] == w
  {
    SortedMembers(names);
    assert w in Sorted(names);
    var k :| 0 <= k < |names| && Sorted(names)[k] == w;
    SortedRank(names, k);
  }

  /** The rank vocabulary and the sorted list are inverse to each other. */
  lemma RankMapIndexing(names: set<string>)
    ensures forall k :: 0 <= k < |names| ==>
      Sorted(names)[k] in names && RankMap(names)[Sorted(names)[k]] == k
    ensures forall w :: w in names ==>
      RankMap(names)[w] < |names| && Sorted(names)[RankMap(names)[w]] == w
  {
    forall k | 0 <= k < |names|
      ensures Sorted(names)[k] in names && RankMap(names)[Sorted(names)[k]] == k
    {
      RankMapAt(names, k);
    }
    forall w | w in names
      ensures RankMap(names)[w] < |names| && Sorted(names)[RankMap(names)[w]] == w
    {
      RankMapOf(names, w);
    }
  }

  /** Writing `sorted[k] := k` for every position over a vocabulary whose keys
      are already names yields the rank vocabulary: every old entry is overwritten. */
  lemma Renumbered(before: map<string, nat>, vocabulary: map<string, nat>, names: set<string>)
    requires before.Keys <= names
    requires forall w :: w in vocabulary <==> w in before || w in Sorted(names)
    requires forall k :: 0 <= k < |Sorted(names)| ==> vocabulary[Sorted(names)[k]] == k
    ensures vocabulary == RankMap(names)
  {
    RankMapIndexing(names);
    SortedMembers(names);
    assert vocabulary.Keys == names;
    forall w | w in names
      ensures vocabulary[w] == RankMap(names)[w]
    {
      assert Sorted(names)[RankMap(names)[w]] == w;
    }
  }

  /** The indices are exactly 0, 1, ..., |names| - 1: no gaps. */
  lemma RankMapDense(names: set<string>)
    ensures forall i :: i in RankMap(names).Values <==> 0 <= i < |names|
  {
    var vocabulary := RankMap(names);
    RankMapIndexing(names);
    forall i | 0 <= i < |names|
      ensures i in vocabulary.Values
    {
      var w := Sorted(names)[i];
      assert w in Sorted(names);
      assert vocabulary[w] == i;
    }
  }

  /** What `fit` promises of its vocabulary: keyed by exactly the feature
      names, indices 0 .. |names| - 1 without gaps, numbered in string order. */
  ghost predicate IsSortedIndexing(vocabulary: map<string, nat>, names: set<string>)
  {
    && vocabulary.Keys == names
    && (forall i :: i in vocabulary.Values <==> 0 <= i < |names|)
    && (forall a, b :: a in names && b in names ==> (Less(a, b) <==> vocabulary[a] < vocabulary[b]))
  }

  lemma RankMapIsSortedIndexing(names: set<string>)
    ensures IsSortedIndexing(RankMap(names), names)
  {
    RankMapDense(names);
    forall a, b | a in names && b in names
      ensures Less(a, b) <==> RankMap(names)[a] < RankMap(names)[b]
    {
      RankMapOrder(names, a, b);
    }
  }

  /** No two names share an index: no duplicates. */
  lemma RankMapInjective(names: set<string>)
    ensures forall a, b :: a in names && b in names && a != b ==>
      RankMap(names)[a] != RankMap(names)[b]
  {
    RankMapIndexing(names);
  }

  /** The numbering follows string order, in both directions. */
  lemma RankMapOrder(names: set<string>, a: string, b: string)
    requires a in names && b in names
    ensures Less(a, b) <==> RankMap(names)[a] < RankMap(names)[b]
  {
    RankMapIndexing(names);
    SortedAscending(names);
    var r := Sorted(names);
    var i, j := RankMap(names)[a], RankMap(names)[b];
    assert r[i] == a && r[j] == b;
    if Less(a, b) && i >= j {
      if i == j {
        LessIrreflexive(a);
      } else {
        LessAsymmetric(b, a);
      }
    }
  }
}
