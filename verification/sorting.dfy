/**
 * Ascending sort of a list of timestamps. The source sorts each address's
 * failure times in place before scanning them; for integers the stability of
 * the sort is invisible, so only the sorted permutation matters.
 */
module Sorting {

  predicate Sorted(s: seq<int>) {
    forall i, j :: 0 <= i < j < |s| ==> s[i] <= s[j]
  }

  /** Inserts `x` into a sorted list, keeping it sorted. */
  function Insert(x: int, s: seq<int>): (r: seq<int>)
    requires Sorted(s)
    ensures Sorted(r)
    ensures multiset(r) == multiset(s) + multiset{x}
    ensures |r| == |s| + 1
  {
    if |s| == 0 then [x]
    else if x <= s[0] then [x] + s
    else
      var rest := Insert(x, s[1..]);
      assert s == [s[0]] + s[1..];
      HeadIsLowerBound(s);
      InsertKeepsLowerBound(s[0], x, s[1..], rest);
      ConsSorted(s[0], rest);
      [s[0]] + rest
  }

  /** The head of a sorted list is a lower bound of its tail. */
  lemma HeadIsLowerBound(s: seq<int>)
    requires Sorted(s) && |s| > 0
    ensures forall y :: y in s[1..] ==> s[0] <= y
  {
  }

  /** A lower bound of a list and of a new element bounds the list with the element inserted. */
  lemma InsertKeepsLowerBound(lo: int, x: int, t: seq<int>, r: seq<int>)
    requires lo <= x && (forall y :: y in t ==> lo <= y)
    requires multiset(r) == multiset(t) + multiset{x}
    ensures forall y :: y in r ==> lo <= y
  {
    forall y | y in r
      ensures lo <= y
    {
      assert y in multiset(r);
      assert y == x || y in multiset(t);
      if y != x {
        assert y in t;
      }
    }
  }

  /** A lower bound put in front of a sorted list keeps it sorted. */
  lemma ConsSorted(lo: int, r: seq<int>)
    requires Sorted(r) && (forall y :: y in r ==> lo <= y)
    ensures Sorted([lo] + r)
  {
    forall i, j | 0 <= i < j < |[lo] + r|
      ensures ([lo] + r)[i] <= ([lo] + r)[j]
    {
      assert ([lo] + r)[j] == r[j - 1];
      if i > 0 {
        assert ([lo] + r)[i] == r[i - 1];
      } else {
        assert r[j - 1] in r;
      }
    }
  }

  /** The ascending permutation of `s`. */
  function Sort(s: seq<int>): (r: seq<int>)
    ensures Sorted(r)
    ensures multiset(r) == multiset(s)
    ensures |r| == |s|
  {
    if |s| == 0 then []
    else
      assert s == [s[0]] + s[1..];
      Insert(s[0], Sort(s[1..]))
  }

  /** The least element of a non-empty sorted list comes first. */
  lemma SortedHeadIsLeast(s: seq<int>, x: int)
    requires Sorted(s) && x in multiset(s)
    ensures |s| > 0 && s[0] <= x
  {
    assert x in s;
  }

  /** A sorted list is determined by its multiset of elements. */
  lemma {:induction false} SortedUnique(a: seq<int>, b: seq<int>)
    requires Sorted(a) && Sorted(b)
    requires multiset(a) == multiset(b)
    ensures a == b
    decreases |a|
  {
    if |a| == 0 {
      assert |multiset(b)| == 0;
    } else {
      assert a[0] in multiset(a);
      SortedHeadIsLeast(b, a[0]);
      assert b[0] in multiset(b);
      SortedHeadIsLeast(a, b[0]);
      assert a[0] == b[0];
      assert a == [a[0]] + a[1..];
      assert b == [b[0]] + b[1..];
      assert multiset(a) == multiset{a[0]} + multiset(a[1..]);
      assert multiset(b) == multiset{b[0]} + multiset(b[1..]);
      assert multiset(a[1..]) == multiset(a) - multiset{a[0]};
      assert multiset(b[1..]) == multiset(b) - multiset{b[0]};
      SortedUnique(a[1..], b[1..]);
    }
  }

  /** Sorting leaves an already sorted list unchanged. */
  lemma SortOfSorted(s: seq<int>)
    requires Sorted(s)
    ensures Sort(s) == s
  {
    SortedUnique(Sort(s), s);
  }

  /** Sorting depends only on the multiset of elements, not on arrival order. */
  lemma SortIgnoresOrder(s: seq<int>, t: seq<int>)
    requires multiset(s) == multiset(t)
    ensures Sort(s) == Sort(t)
  {
    SortedUnique(Sort(s), Sort(t));
  }
}
