/**
  Generic facts about sequences used by the catalogue and the checker:
  distinctness, the element set of a sequence, and order-preserving
  subsequences (what a Python list comprehension with an `if` filter
  produces from the list it walks).
 */
module Sequences {

  /** No element occurs twice. */
  predicate Distinct<T(==)>(s: seq<T>)
  {
    forall i, j :: 0 <= i < j < |s| ==> s[i] != s[j]
  }

  /** The elements of `s`, as a set. */
  function Elems<T>(s: seq<T>): set<T>
  {
    set x | x in s
  }

  /** `r` is `s` with some elements dropped and the rest kept in order. */
  predicate Subsequence<T(==)>(r: seq<T>, s: seq<T>)
    decreases |s|
  {
    if r == [] then true
    else if s == [] then false
    else (r[0] == s[0] && Subsequence(r[1..], s[1..])) || Subsequence(r, s[1..])
  }

  /** `[f(x) for x in s]`. */
  function MapSeq<A, B>(f: A -> B, s: seq<A>): (r: seq<B>)
    ensures |r| == |s|
    ensures forall i :: 0 <= i < |s| ==> r[i] == f(s[i])
  {
    if s == [] then [] else MapSeq(f, s[..|s| - 1]) + [f(s[|s| - 1])]
  }

  lemma MapSeqStep<A, B>(f: A -> B, s: seq<A>, i: nat)
    requires i < |s|
    ensures MapSeq(f, s[..i + 1]) == MapSeq(f, s[..i]) + [f(s[i])]
  {
  }

  /** A distinct sequence has exactly as many elements as its element set. */
  lemma {:induction false} DistinctCard<T>(s: seq<T>)
    requires Distinct(s)
    ensures |Elems(s)| == |s|
  {
    if s != [] {
      DistinctCard(s[1..]);
      assert Elems(s) == {s[0]} + Elems(s[1..]);
      assert s[0] !in Elems(s[1..]);
    }
  }

  /** Two distinct sequences with no element in common concatenate to a distinct one. */
  lemma DisjointConcat<T>(a: seq<T>, b: seq<T>)
    requires Distinct(a) && Distinct(b) && Elems(a) !! Elems(b)
    ensures Distinct(a + b)
    ensures Elems(a + b) == Elems(a) + Elems(b)
  {
    var both := a + b;
    forall i, j | 0 <= i < j < |both|
      ensures both[i] != both[j]
    {
      if i < |a| && j >= |a| {
        assert both[i] in Elems(a) && both[j] == b[j - |a|] && both[j] in Elems(b);
      }
    }
  }

  /** A subsequence only holds elements of the sequence it was taken from. */
  lemma {:induction false} SubsequenceElems<T>(r: seq<T>, s: seq<T>)
    requires Subsequence(r, s)
    ensures Elems(r) <= Elems(s)
    decreases |s|
  {
    if r != [] {
      if r[0] == s[0] && Subsequence(r[1..], s[1..]) {
        SubsequenceElems(r[1..], s[1..]);
        assert Elems(r) == {r[0]} + Elems(r[1..]);
      } else {
        SubsequenceElems(r, s[1..]);
      }
      assert Elems(s) == {s[0]} + Elems(s[1..]);
    }
  }

  /** A subsequence of a distinct sequence is distinct. */
  lemma {:induction false} SubsequenceDistinct<T>(r: seq<T>, s: seq<T>)
    requires Subsequence(r, s) && Distinct(s)
    ensures Distinct(r)
    decreases |s|
  {
    if r != [] {
      if r[0] == s[0] && Subsequence(r[1..], s[1..]) {
        SubsequenceDistinct(r[1..], s[1..]);
        SubsequenceElems(r[1..], s[1..]);
        assert s[0] !in Elems(s[1..]);
        forall i, j | 0 <= i < j < |r|
          ensures r[i] != r[j]
        {
          if i > 0 {
            assert r[i] == r[1..][i - 1] && r[j] == r[1..][j - 1];
          } else {
            assert r[j] == r[1..][j - 1];
            assert r[j] in Elems(r[1..]);
          }
        }
      } else {
        SubsequenceDistinct(r, s[1..]);
      }
    }
  }

  /** Removing the first element of a distinct sequence removes it from the set. */
  lemma ElemsTail<T>(a: seq<T>)
    requires Distinct(a) && a != []
    ensures Elems(a[1..]) == Elems(a) - {a[0]}
  {
  }

  /**
    Two subsequences of the same distinct sequence with the same elements
    are equal: a filter of a distinct list is determined by what it keeps.
   */
  lemma {:induction false} SubsequenceUnique<T>(a: seq<T>, b: seq<T>, s: seq<T>)
    requires Distinct(s) && Subsequence(a, s) && Subsequence(b, s)
    requires Elems(a) == Elems(b)
    ensures a == b
    decreases |s|
  {
    if a != [] { assert a[0] in Elems(a); }
    if b != [] { assert b[0] in Elems(b); }
    if a != [] && b != [] {
      var h := s[0];
      assert Distinct(s[1..]);
      assert h !in Elems(s[1..]);
      if h in Elems(a) {
        if !(a[0] == h && Subsequence(a[1..], s[1..])) {
          SubsequenceElems(a, s[1..]);
          assert false;
        }
        if !(b[0] == h && Subsequence(b[1..], s[1..])) {
          SubsequenceElems(b, s[1..]);
          assert false;
        }
        SubsequenceDistinct(a, s);
        SubsequenceDistinct(b, s);
        ElemsTail(a);
        ElemsTail(b);
        SubsequenceUnique(a[1..], b[1..], s[1..]);
        assert a == [a[0]] + a[1..] && b == [b[0]] + b[1..];
      } else {
        assert !(a[0] == h);
        assert !(b[0] == h);
        SubsequenceUnique(a, b, s[1..]);
      }
    }
  }
}
