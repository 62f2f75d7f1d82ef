/**
 `qsort`, parameterised by the comparator. The model is a stable sort that, like glibc's merge
 sort, only ever tests whether `cmp(x, y) <= 0` for an `x` that precedes `y` in the input.
 */
module Sorting {

  function Insert<T(!new)>(x: T, s: seq<T>, cmp: (T, T) -> int): (r: seq<T>)
    ensures |r| == |s| + 1
    ensures multiset(r) == multiset{x} + multiset(s)
    ensures forall y :: y in r <==> y == x || y in s
  {
    if s == [] || cmp(x, s[0]) <= 0 then [x] + s
    else
      assert s == [s[0]] + s[1..];
      [s[0]] + Insert(x, s[1..], cmp)
  }

  function SortBy<T(!new)>(s: seq<T>, cmp: (T, T) -> int): (r: seq<T>)
    ensures |r| == |s|
    ensures multiset(r) == multiset(s)
    ensures forall y :: y in r <==> y in s
  {
    if s == [] then []
    else
      assert s == [s[0]] + s[1..];
      Insert(s[0], SortBy(s[1..], cmp), cmp)
  }

  ghost predicate Ordered<T(!new)>(s: seq<T>, cmp: (T, T) -> int) {
    forall i, j :: 0 <= i < j < |s| ==> cmp(s[i], s[j]) <= 0
  }

  /** On the values of `s` the comparator's `<= 0` is a total preorder. */
  ghost predicate Consistent<T(!new)>(s: seq<T>, cmp: (T, T) -> int) {
    && (forall x, y :: x in s && y in s ==> cmp(x, y) <= 0 || cmp(y, x) <= 0)
    && (forall x, y, z :: x in s && y in s && z in s && cmp(x, y) <= 0 && cmp(y, z) <= 0 ==> cmp(x, z) <= 0)
  }

  lemma {:induction false} InsertOrdered<T(!new)>(x: T, s: seq<T>, cmp: (T, T) -> int, all: seq<T>)
    requires Consistent(all, cmp)
    requires x in all && forall y :: y in s ==> y in all
    requires Ordered(s, cmp)
    ensures Ordered(Insert(x, s, cmp), cmp)
  {
    if s == [] {
    } else if cmp(x, s[0]) <= 0 {
      forall j | 0 <= j < |s| ensures cmp(x, s[j]) <= 0 {
        assert s[0] in all && s[j] in all;
      }
    } else {
      var rest := s[1..];
      assert forall i, j :: 0 <= i < j < |rest| ==> rest[i] == s[i + 1] && rest[j] == s[j + 1];
      InsertOrdered(x, rest, cmp, all);
      var t := Insert(x, rest, cmp);
      assert s[0] in all;
      forall y | y in t ensures cmp(s[0], y) <= 0 {
        if y != x {
          var k :| 0 <= k < |rest| && rest[k] == y;
          assert y == s[k + 1];
        }
      }
    }
  }

  /** Sorting with a consistent comparator orders the values. */
  lemma {:induction false} SortByOrdered<T(!new)>(s: seq<T>, cmp: (T, T) -> int)
    requires Consistent(s, cmp)
    ensures Ordered(SortBy(s, cmp), cmp)
  {
    if s != [] {
      SortByOrdered(s[1..], cmp);
      InsertOrdered(s[0], SortBy(s[1..], cmp), cmp, s);
    }
  }

  /** What is in order stays as it is. */
  lemma {:induction false} SortedStays<T(!new)>(s: seq<T>, cmp: (T, T) -> int)
    requires Ordered(s, cmp)
    ensures SortBy(s, cmp) == s
  {
    if s != [] {
      SortedStays(s[1..], cmp);
      assert s == [s[0]] + s[1..];
    }
  }

  /** `qsort(&a[lo], n, ..., cmp)`: sorts a stretch of the array in place. */
  method Qsort<T(!new)>(a: array<T>, lo: nat, n: nat, cmp: (T, T) -> int)
    requires lo + n <= a.Length
    modifies a
    ensures a[lo..lo + n] == SortBy(old(a[lo..lo + n]), cmp)
    ensures forall i :: 0 <= i < a.Length && !(lo <= i < lo + n) ==> a[i] == old(a[i])
  {
    var s := SortBy(a[lo..lo + n], cmp);
    forall i | 0 <= i < n {
      a[lo + i] := s[i];
    }
    assert forall i :: 0 <= i < n ==> a[lo..lo + n][i] == s[i];
  }
}
