/** Sorting by a strict order, and why the result is determined: a strictly
    sorted arrangement of a multiset is unique. */
module Sorting {

  /** `lt` is irreflexive and transitive. */
  ghost predicate IsStrictOrder<T(!new)>(lt: (T, T) -> bool)
  {
    (forall a :: !lt(a, a)) &&
    (forall a, b, c :: lt(a, b) && lt(b, c) ==> lt(a, c))
  }

  /** Every element is below every later one. */
  predicate Sorted<T>(s: seq<T>, lt: (T, T) -> bool)
  {
    forall i, j :: 0 <= i < j < |s| ==> lt(s[i], s[j])
  }

  /** Any two entries at different positions are ordered one way or the other. */
  predicate Comparable<T>(s: seq<T>, lt: (T, T) -> bool)
  {
    forall i, j :: 0 <= i < |s| && 0 <= j < |s| && i != j ==> lt(s[i], s[j]) || lt(s[j], s[i])
  }

  /** `x` placed before the first element of `s` that it is below. */
  function Insert<T>(x: T, s: seq<T>, lt: (T, T) -> bool): (r: seq<T>)
    ensures multiset(r) == multiset(s) + multiset{x}
  {
    if |s| == 0 then [x]
    else if lt(x, s[0]) then [x] + s
    else
      assert s == [s[0]] + s[1..];
      [s[0]] + Insert(x, s[1..], lt)
  }

  function InsertionSort<T>(s: seq<T>, lt: (T, T) -> bool): (r: seq<T>)
    ensures multiset(r) == multiset(s)
  {
    if |s| == 0 then []
    else
      assert s == [s[0]] + s[1..];
      Insert(s[0], InsertionSort(s[1..], lt), lt)
  }

  lemma {:induction false} InsertSorted<T(!new)>(x: T, s: seq<T>, lt: (T, T) -> bool)
    requires IsStrictOrder(lt) && Sorted(s, lt)
    requires forall y :: y in s ==> lt(x, y) || lt(y, x)
    ensures Sorted(Insert(x, s, lt), lt)
  {
    if |s| > 0 && !lt(x, s[0]) {
      InsertSorted(x, s[1..], lt);
      var r := Insert(x, s[1..], lt);
      assert lt(s[0], x);
      forall y | y in r ensures lt(s[0], y) {
        assert y in multiset(r);
      }
    }
  }

  /** Sorting a sequence whose entries are pairwise comparable yields a
      strictly sorted sequence. */
  lemma {:induction false} SortSorted<T(!new)>(s: seq<T>, lt: (T, T) -> bool)
    requires IsStrictOrder(lt) && Comparable(s, lt)
    ensures Sorted(InsertionSort(s, lt), lt)
  {
    if |s| > 0 {
      var tail := s[1..];
      assert Comparable(tail, lt) by {
        forall i, j | 0 <= i < |tail| && 0 <= j < |tail| && i != j
          ensures lt(tail[i], tail[j]) || lt(tail[j], tail[i])
        {
          assert tail[i] == s[i + 1] && tail[j] == s[j + 1];
        }
      }
      SortSorted(tail, lt);
      var sorted := InsertionSort(tail, lt);
      forall y | y in sorted ensures lt(s[0], y) || lt(y, s[0]) {
        assert y in multiset(tail);
        var j :| 0 <= j < |tail| && tail[j] == y;
        assert s[j + 1] == y;
      }
      InsertSorted(s[0], sorted, lt);
    }
  }

  /** Two strictly sorted sequences with the same elements are equal: the
      sorted order leaves no choice. */
  lemma {:induction false} SortedUnique<T(!new)>(a: seq<T>, b: seq<T>, lt: (T, T) -> bool)
    requires IsStrictOrder(lt) && Sorted(a, lt) && Sorted(b, lt)
    requires multiset(a) == multiset(b)
    ensures a == b
  {
    assert |a| == |multiset(a)| == |multiset(b)| == |b|;
    if |a| > 0 {
      SameHead(a, b, lt);
      var x := a[0];
      assert a == [x] + a[1..] && b == [x] + b[1..];
      assert multiset(a[1..]) == multiset(a) - multiset{x};
      assert multiset(b[1..]) == multiset(b) - multiset{x};
      SortedTail(a, lt);
      SortedTail(b, lt);
      SortedUnique(a[1..], b[1..], lt);
    }
  }

  /** Arrangements of the same multiset hold the same elements. */
  lemma SameMembers<T>(a: seq<T>, b: seq<T>)
    requires multiset(a) == multiset(b)
    ensures forall x :: x in a <==> x in b
  {
    forall x ensures x in a <==> x in b {
      assert x in a <==> x in multiset(a);
      assert x in b <==> x in multiset(b);
    }
  }

  lemma SortedTail<T>(s: seq<T>, lt: (T, T) -> bool)
    requires |s| > 0 && Sorted(s, lt)
    ensures Sorted(s[1..], lt)
  {
    forall i, j | 0 <= i < j < |s| - 1 ensures lt(s[1..][i], s[1..][j]) {
      assert s[1..][i] == s[i + 1] && s[1..][j] == s[j + 1];
    }
  }

  /** The first element of a strictly sorted sequence is its least one. */
  lemma SameHead<T(!new)>(a: seq<T>, b: seq<T>, lt: (T, T) -> bool)
    requires IsStrictOrder(lt) && Sorted(a, lt) && Sorted(b, lt)
    requires |a| > 0 && multiset(a) == multiset(b)
    ensures |b| > 0 && a[0] == b[0]
  {
    assert a[0] in multiset(b);
    assert |b| > 0;
    assert b[0] in multiset(a);
    var i :| 0 <= i < |b| && b[i] == a[0];
    var j :| 0 <= j < |a| && a[j] == b[0];
    if i > 0 && j > 0 {
      assert false;
    }
  }
}
