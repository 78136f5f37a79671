/** Sorting by a strict total order, and the uniqueness of its result. */
module Sorting {

  ghost predicate TotalOrder<T(!new)>(less: (T, T) -> bool) {
    && (forall x, y :: less(x, y) ==> x != y && !less(y, x))
    && (forall x, y, z :: less(x, y) && less(y, z) ==> less(x, z))
    && (forall x, y :: less(x, y) || x == y || less(y, x))
  }

  predicate Sorted<T>(s: seq<T>, less: (T, T) -> bool) {
    forall i, j :: 0 <= i < j < |s| ==> !less(s[j], s[i])
  }

  function Insert<T(==)>(s: seq<T>, x: T, less: (T, T) -> bool): (r: seq<T>)
    ensures multiset(r) == multiset(s) + multiset{x}
  {
    if s == [] then [x]
    else if less(s[0], x) then
      assert s == [s[0]] + s[1..];
      [s[0]] + Insert(s[1..], x, less)
    else [x] + s
  }

  function Sort<T(==)>(s: seq<T>, less: (T, T) -> bool): (r: seq<T>)
    ensures multiset(r) == multiset(s)
  {
    if s == [] then []
    else
      assert s == s[..|s| - 1] + [s[|s| - 1]];
      Insert(Sort(s[..|s| - 1], less), s[|s| - 1], less)
  }

  lemma InMultiset<T>(s: seq<T>, x: T)
    ensures x in s <==> x in multiset(s)
  {
  }

  lemma {:induction false} InsertSorted<T(!new)>(s: seq<T>, x: T, less: (T, T) -> bool)
    requires TotalOrder(less) && Sorted(s, less)
    ensures Sorted(Insert(s, x, less), less)
  {
    if s != [] && less(s[0], x) {
      InsertSorted(s[1..], x, less);
      var r := Insert(s[1..], x, less);
      forall j | 0 <= j < |r| ensures !less(r[j], s[0]) {
        assert r[j] in multiset(r);
        if r[j] != x {
          assert r[j] in s[1..];
        }
      }
    } else if s != [] {
      forall j | 0 <= j < |s| ensures !less(s[j], x) {
        assert s[0] == s[j] || less(s[0], s[j]);
      }
    }
  }

  lemma {:induction false} SortSorts<T(!new)>(s: seq<T>, less: (T, T) -> bool)
    requires TotalOrder(less)
    ensures Sorted(Sort(s, less), less)
  {
    if s != [] {
      SortSorts(s[..|s| - 1], less);
      InsertSorted(Sort(s[..|s| - 1], less), s[|s| - 1], less);
    }
  }

  lemma {:induction false} InsertLast<T(!new)>(s: seq<T>, x: T, less: (T, T) -> bool)
    requires TotalOrder(less) && Sorted(s + [x], less)
    ensures Insert(s, x, less) == s + [x]
  {
    var all := s + [x];
    if s != [] {
      assert all[0] == s[0] && all[|s|] == x && !less(x, s[0]);
      if less(s[0], x) {
        assert all[1..] == s[1..] + [x];
        InsertLast(s[1..], x, less);
      } else {
        forall i | 0 <= i < |s| ensures s[i] == x {
          assert all[i] == s[i] && !less(x, s[i]);
          assert i > 0 ==> !less(all[i], all[0]);
          assert s[0] == x;
        }
      }
    }
  }

  /** Sorting what is sorted changes nothing. */
  lemma {:induction false} SortOfSorted<T(!new)>(s: seq<T>, less: (T, T) -> bool)
    requires TotalOrder(less) && Sorted(s, less)
    ensures Sort(s, less) == s
  {
    if s != [] {
      var n := |s| - 1;
      SortOfSorted(s[..n], less);
      assert s == s[..n] + [s[n]];
      InsertLast(s[..n], s[n], less);
    }
  }

  predicate Ordered<T>(s: seq<T>, less: (T, T) -> bool) {
    forall i, j :: 0 <= i < j < |s| ==> less(s[i], s[j])
  }

  lemma FirstIn<T>(s: seq<T>)
    ensures s == [] || s[0] in s
  {
  }

  lemma NotAgain<T(!new)>(s: seq<T>, x: T, less: (T, T) -> bool)
    requires s != [] && Ordered(s, less) && !less(s[0], s[0])
    ensures x in s[1..] <==> x in s && x != s[0]
  {
    if x in s[1..] {
      var i :| 0 <= i < |s| - 1 && s[1..][i] == x;
      assert s[i + 1] == x;
    }
    assert s == [s[0]] + s[1..];
  }

  /** There is only one way to put a set of elements in strict order. */
  lemma {:induction false} OrderedUnique<T(!new)>(a: seq<T>, b: seq<T>, less: (T, T) -> bool)
    requires Ordered(a, less) && Ordered(b, less)
    requires forall x, y :: less(x, y) ==> !less(y, x)
    requires forall x :: x in a <==> x in b
    ensures a == b
  {
    FirstIn(a);
    FirstIn(b);
    if a != [] {
      var i :| 0 <= i < |b| && b[i] == a[0];
      var j :| 0 <= j < |a| && a[j] == b[0];
      assert i == 0 || j == 0;
      forall x ensures x in a[1..] <==> x in b[1..] {
        NotAgain(a, x, less);
        NotAgain(b, x, less);
      }
      OrderedUnique(a[1..], b[1..], less);
      assert a == [a[0]] + a[1..] && b == [b[0]] + b[1..];
    }
  }
}
