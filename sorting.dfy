/** Sorting a list by a comparison (what `list.sort()` and `sorted(...,
    key=...)` do), as an insertion sort: stable, and sorted with respect to
    any strict weak order. */
module Sorting {

  /** `less` is a strict weak order: irreflexive, transitive, and
      "incomparable" is transitive too. */
  ghost predicate StrictWeakOrder<T(!new)>(less: (T, T) -> bool)
  {
    (forall a :: !less(a, a)) &&
    (forall a, b, c :: less(a, b) && less(b, c) ==> less(a, c)) &&
    (forall a, b, c :: !less(a, b) && !less(b, c) ==> !less(a, c))
  }

  /** No element is less than one before it. */
  ghost predicate Sorted<T>(s: seq<T>, less: (T, T) -> bool)
  {
    forall i, j :: 0 <= i < j < |s| ==> !less(s[j], s[i])
  }

  /** `x` placed before the first element of `s` that is not less than it. */
  function Insert<T>(x: T, s: seq<T>, less: (T, T) -> bool): (r: seq<T>)
    ensures multiset(r) == multiset(s) + multiset{x}
    ensures |r| == |s| + 1
    decreases |s|
  {
    if s == [] then [x]
    else if less(s[0], x) then
      assert s == [s[0]] + s[1..];
      [s[0]] + Insert(x, s[1..], less)
    else [x] + s
  }

  /** The sorted list: the head inserted into the sorted tail. */
  function Sort<T>(s: seq<T>, less: (T, T) -> bool): (r: seq<T>)
    ensures multiset(r) == multiset(s)
    ensures |r| == |s|
    decreases |s|
  {
    if s == [] then []
    else
      assert s == [s[0]] + s[1..];
      Insert(s[0], Sort(s[1..], less), less)
  }

  lemma {:induction false} InsertSorted<T(!new)>(x: T, s: seq<T>, less: (T, T) -> bool)
    requires StrictWeakOrder(less) && Sorted(s, less)
    ensures Sorted(Insert(x, s, less), less)
    decreases |s|
  {
    var r := Insert(x, s, less);
    if s != [] {
      if less(s[0], x) {
        var t := s[1..];
        assert Sorted(t, less) by {
          forall i, j | 0 <= i < j < |t|
            ensures !less(t[j], t[i])
          {
            assert t[j] == s[j + 1] && t[i] == s[i + 1];
          }
        }
        InsertSorted(x, t, less);
        var rest := Insert(x, t, less);
        assert r == [s[0]] + rest;
        forall j | 0 < j < |r|
          ensures !less(r[j], s[0])
        {
          assert r[j] in multiset(rest);
          assert r[j] in multiset(t) + multiset{x};
          if r[j] in multiset(t) {
            var k :| 0 <= k < |t| && t[k] == r[j];
            assert s[k + 1] == r[j];
          }
        }
      } else {
        assert r == [x] + s;
        forall j | 0 < j < |r|
          ensures !less(r[j], x)
        {
          assert r[j] == s[j - 1];
          if j - 1 > 0 {
            assert !less(s[j - 1], s[0]);
          }
        }
      }
    }
  }

  /** The result is sorted. */
  lemma {:induction false} SortSorted<T(!new)>(s: seq<T>, less: (T, T) -> bool)
    requires StrictWeakOrder(less)
    ensures Sorted(Sort(s, less), less)
    decreases |s|
  {
    if s != [] {
      SortSorted(s[1..], less);
      InsertSorted(s[0], Sort(s[1..], less), less);
    }
  }
}
