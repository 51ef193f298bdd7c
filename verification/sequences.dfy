/** Small facts about sequences used by the search: duplicate-freedom, the set of
    elements of a sequence, and the in-order subsequence relation. */
module Sequences {

  /** No element occurs twice. */
  predicate NoDup<T(==)>(s: seq<T>)
    decreases |s|
  {
    |s| == 0 || (NoDup(s[..|s| - 1]) && s[|s| - 1] !in s[..|s| - 1])
  }

  /** The elements of `s`, forgetting order and multiplicity. */
  function Elems<T>(s: seq<T>): set<T>
    decreases |s|
  {
    if |s| == 0 then {} else Elems(s[..|s| - 1]) + {s[|s| - 1]}
  }

  lemma {:induction false} ElemsMember<T>(s: seq<T>, x: T)
    ensures x in Elems(s) <==> x in s
    decreases |s|
  {
    if |s| > 0 {
      ElemsMember(s[..|s| - 1], x);
      assert s == s[..|s| - 1] + [s[|s| - 1]];
    }
  }

  lemma ElemsSnoc<T>(s: seq<T>, x: T)
    ensures Elems(s + [x]) == Elems(s) + {x}
  {
    assert (s + [x])[..|s|] == s;
  }

  /** `p` can be obtained from `e` by deleting elements, keeping the order of the rest. */
  ghost predicate Subseq<T>(p: seq<T>, e: seq<T>)
    decreases |e|
  {
    || |p| == 0
    || (&& |e| > 0
        && ((p[0] == e[0] && Subseq(p[1..], e[1..])) || Subseq(p, e[1..])))
  }

  /** A sequence without duplicates has exactly as many distinct elements as positions. */
  lemma {:induction false} NoDupCard<T>(s: seq<T>)
    requires NoDup(s)
    ensures |Elems(s)| == |s|
  {
    if |s| > 0 {
      var t := s[..|s| - 1];
      NoDupCard(t);
      assert s == t + [s[|s| - 1]];
      ElemsMember(t, s[|s| - 1]);
    }
  }

  /** Elements dropped in front of a subsequence's host keep it a subsequence. */
  lemma {:induction false} SubseqPrepend<T>(p: seq<T>, e: seq<T>, f: seq<T>)
    requires Subseq(p, f)
    ensures Subseq(p, e + f)
    decreases |e|
  {
    if |e| == 0 {
      assert e + f == f;
    } else if |p| > 0 {
      assert (e + f)[1..] == e[1..] + f;
      SubseqPrepend(p, e[1..], f);
    }
  }

  /** A shared first element extends a subsequence on both sides. */
  lemma SubseqCons<T>(x: T, p: seq<T>, e: seq<T>)
    requires Subseq(p, e)
    ensures Subseq([x] + p, [x] + e)
  {
    assert ([x] + p)[1..] == p;
    assert ([x] + e)[1..] == e;
  }

  /** The recursive definition of `NoDup` agrees with pairwise distinctness. */
  lemma {:induction false} NoDupPairwise<T>(s: seq<T>)
    ensures NoDup(s) <==> forall i, j :: 0 <= i < j < |s| ==> s[i] != s[j]
    decreases |s|
  {
    if |s| > 0 {
      var t := s[..|s| - 1];
      NoDupPairwise(t);
      if forall i, j :: 0 <= i < j < |s| ==> s[i] != s[j] {
        assert forall i, j :: 0 <= i < j < |t| ==> t[i] != t[j];
      }
    }
  }

  /** A non-empty sequence contains its first element. */
  lemma NonEmptyHead<T>(s: seq<T>)
    ensures |s| > 0 ==> s[0] in s
  {
  }
}
