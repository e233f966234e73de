/** Stable sorting by a strict order, and what sorting keeps. */
module Ordering {

  ghost predicate Strict<T(!new)>(less: (T, T) -> bool) {
    && (forall x: T :: !less(x, x))
    && (forall x: T, y: T, z: T :: less(x, y) && less(y, z) ==> less(x, z))
  }

  /** No two elements have the same key. */
  predicate Distinct<T>(less: (T, T) -> bool, vs: seq<T>) {
    forall i, j :: 0 <= i < j < |vs| ==> less(vs[i], vs[j]) || less(vs[j], vs[i])
  }

  predicate Ascending<T>(less: (T, T) -> bool, vs: seq<T>) {
    forall i, j :: 0 <= i < j < |vs| ==> less(vs[i], vs[j])
  }

  /** What a check of neighbouring pairs sees. */
  predicate Neighbours<T>(less: (T, T) -> bool, vs: seq<T>) {
    forall i :: 0 <= i < |vs| - 1 ==> less(vs[i], vs[i + 1])
  }

  function Insert<T>(less: (T, T) -> bool, x: T, s: seq<T>): seq<T> {
    if s == [] || !less(s[0], x) then [x] + s else [s[0]] + Insert(less, x, s[1..])
  }

  function Sort<T>(less: (T, T) -> bool, vs: seq<T>): seq<T> {
    if vs == [] then [] else Insert(less, vs[0], Sort(less, vs[1..]))
  }

  lemma {:induction false} InsertKeeps<T>(less: (T, T) -> bool, x: T, s: seq<T>)
    ensures multiset(Insert(less, x, s)) == multiset(s) + multiset{x}
  {
    if s != [] && less(s[0], x) {
      InsertKeeps(less, x, s[1..]);
      assert s == [s[0]] + s[1..];
    }
  }

  lemma {:induction false} SortKeeps<T>(less: (T, T) -> bool, vs: seq<T>)
    ensures multiset(Sort(less, vs)) == multiset(vs)
  {
    if vs != [] {
      SortKeeps(less, vs[1..]);
      InsertKeeps(less, vs[0], Sort(less, vs[1..]));
      assert vs == [vs[0]] + vs[1..];
    }
  }

  lemma SameElements<T>(a: seq<T>, b: seq<T>)
    requires multiset(a) == multiset(b)
    ensures |a| == |b| && forall x :: x in a <==> x in b
  {
    assert |multiset(a)| == |a| && |multiset(b)| == |b|;
    assert forall x :: x in a <==> x in multiset(a);
    assert forall x :: x in b <==> x in multiset(b);
  }

  lemma {:induction false} InsertAscends<T(!new)>(less: (T, T) -> bool, x: T, s: seq<T>)
    requires Strict(less) && Ascending(less, s)
    requires forall i :: 0 <= i < |s| ==> less(x, s[i]) || less(s[i], x)
    ensures Ascending(less, Insert(less, x, s))
  {
    if s == [] {
    } else if less(s[0], x) {
      InsertAscends(less, x, s[1..]);
      InsertKeeps(less, x, s[1..]);
      var rest := Insert(less, x, s[1..]);
      forall i | 0 <= i < |rest| ensures less(s[0], rest[i]) {
        assert rest[i] in multiset(rest);
        assert rest[i] == x || rest[i] in s[1..];
      }
    } else {
      forall i | 0 <= i < |s| ensures less(x, s[i]) {
        assert less(x, s[0]);
        assert i > 0 ==> less(s[0], s[i]);
      }
    }
  }

  /** Sorting elements with different keys puts them in order. */
  lemma {:induction false} SortAscends<T(!new)>(less: (T, T) -> bool, vs: seq<T>)
    requires Strict(less) && Distinct(less, vs)
    ensures Ascending(less, Sort(less, vs))
  {
    if vs != [] {
      var rest := Sort(less, vs[1..]);
      SortAscends(less, vs[1..]);
      SortKeeps(less, vs[1..]);
      SameElements(rest, vs[1..]);
      forall i | 0 <= i < |rest| ensures less(vs[0], rest[i]) || less(rest[i], vs[0]) {
        assert rest[i] in vs[1..];
        var j :| 0 <= j < |vs[1..]| && vs[1..][j] == rest[i];
        assert vs[j + 1] == rest[i];
      }
      InsertAscends(less, vs[0], rest);
    }
  }

  /** What is in order already stays as it is. */
  lemma {:induction false} SortedStays<T(!new)>(less: (T, T) -> bool, vs: seq<T>)
    requires Strict(less) && Ascending(less, vs)
    ensures Sort(less, vs) == vs
  {
    if vs != [] {
      SortedStays(less, vs[1..]);
      if |vs| > 1 {
        assert less(vs[0], vs[1]);
        assert !less(vs[1], vs[0]);
      }
    }
  }

  lemma {:induction false} NeighboursAscend<T(!new)>(less: (T, T) -> bool, vs: seq<T>)
    requires Strict(less) && Neighbours(less, vs)
    ensures Ascending(less, vs)
  {
    if |vs| > 1 {
      NeighboursAscend(less, vs[1..]);
      forall j | 1 <= j < |vs| ensures less(vs[0], vs[j]) {
        assert less(vs[0], vs[1]);
        if j > 1 { assert less(vs[1..][0], vs[1..][j - 1]); }
      }
      forall i, j | 1 <= i < j < |vs| ensures less(vs[i], vs[j]) {
        assert less(vs[1..][i - 1], vs[1..][j - 1]);
      }
    }
  }

  lemma HeadIsLeast<T>(less: (T, T) -> bool, s: seq<T>, i: nat)
    requires Ascending(less, s) && i < |s|
    ensures i == 0 || less(s[0], s[i])
  {
  }

  lemma {:induction false} FirstIsLeast<T(!new)>(less: (T, T) -> bool, a: seq<T>, b: seq<T>)
    requires Strict(less) && Ascending(less, a) && Ascending(less, b)
    requires multiset(a) == multiset(b) && a != []
    ensures b != [] && a[0] == b[0]
  {
    SameElements(a, b);
    assert a[0] in b && b[0] in a;
    var i :| 0 <= i < |b| && b[i] == a[0];
    var j :| 0 <= j < |a| && a[j] == b[0];
    HeadIsLeast(less, b, i);
    HeadIsLeast(less, a, j);
  }

  /** Only one order of the same elements is ascending. */
  lemma {:induction false} OneAscendingOrder<T(!new)>(less: (T, T) -> bool, a: seq<T>, b: seq<T>)
    requires Strict(less) && Ascending(less, a) && Ascending(less, b) && multiset(a) == multiset(b)
    ensures a == b
  {
    hide Ascending, Strict;
    if a == [] {
      SameElements(a, b);
    } else {
      FirstIsLeast(less, a, b);
      Tail(less, a);
      Tail(less, b);
      OneAscendingOrder(less, a[1..], b[1..]);
    }
  }

  lemma Tail<T>(less: (T, T) -> bool, s: seq<T>)
    requires s != [] && Ascending(less, s)
    ensures s == [s[0]] + s[1..] && Ascending(less, s[1..])
    ensures multiset(s[1..]) == multiset(s) - multiset{s[0]}
  {
    assert s == [s[0]] + s[1..];
  }
}
