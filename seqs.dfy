/**
 * Sequence helpers shared by the store model and the listing queries: an
 * order-preserving filter (what a queryset `.filter(...)` or a cascade delete
 * leaves of an ordered table) and the pairwise properties it keeps.
 */
module Seqs {

  /** The elements of `s` that satisfy `keep`, in their original order. */
  function Where<T(!new)>(s: seq<T>, keep: T -> bool): (r: seq<T>)
    ensures |r| <= |s|
    ensures forall x :: x in r <==> x in s && keep(x)
    decreases |s|
  {
    if s == [] then []
    else (if keep(s[0]) then [s[0]] else []) + Where(s[1..], keep)
  }

  /** Every earlier element stands in relation `before` to every later one. */
  predicate Ordered<T>(s: seq<T>, before: (T, T) -> bool) {
    forall i, j :: 0 <= i < j < |s| ==> before(s[i], s[j])
  }

  predicate NoDuplicates<T(==)>(s: seq<T>) {
    forall i, j :: 0 <= i < j < |s| ==> s[i] != s[j]
  }

  lemma OrderedTail<T>(s: seq<T>, before: (T, T) -> bool)
    requires Ordered(s, before) && s != []
    ensures Ordered(s[1..], before)
    ensures forall x :: x in s[1..] ==> before(s[0], x)
  {
    forall x | x in s[1..] ensures before(s[0], x) {
      var k :| 0 <= k < |s[1..]| && s[1..][k] == x;
      assert s[k + 1] == x;
    }
  }

  lemma OrderedCons<T>(x: T, t: seq<T>, before: (T, T) -> bool)
    requires Ordered(t, before)
    requires forall y :: y in t ==> before(x, y)
    ensures Ordered([x] + t, before)
  {
    var r := [x] + t;
    forall i, j | 0 <= i < j < |r| ensures before(r[i], r[j]) {
      assert r[j] == t[j - 1];
      if i > 0 {
        assert r[i] == t[i - 1];
      }
    }
  }

  /** Filtering keeps any pairwise ordering of the rows it keeps. */
  lemma {:induction false} WhereOrdered<T(!new)>(s: seq<T>, keep: T -> bool, before: (T, T) -> bool)
    requires Ordered(s, before)
    ensures Ordered(Where(s, keep), before)
  {
    if s != [] {
      OrderedTail(s, before);
      WhereOrdered(s[1..], keep, before);
      var rest := Where(s[1..], keep);
      if keep(s[0]) {
        OrderedCons(s[0], rest, before);
      }
    }
  }

  predicate Differ<T(==)>(a: T, b: T) { a != b }

  lemma NoDuplicatesIsOrdered<T>(s: seq<T>)
    ensures NoDuplicates(s) <==> Ordered(s, Differ)
  {
    assert forall i, j :: 0 <= i < j < |s| ==> (Differ(s[i], s[j]) <==> s[i] != s[j]);
  }

  /** Filtering a duplicate-free sequence gives a duplicate-free sequence. */
  lemma WhereNoDuplicates<T(!new)>(s: seq<T>, keep: T -> bool)
    requires NoDuplicates(s)
    ensures NoDuplicates(Where(s, keep))
  {
    NoDuplicatesIsOrdered(s);
    WhereOrdered(s, keep, Differ);
    NoDuplicatesIsOrdered(Where(s, keep));
  }

  /** Filtering keeps every copy of a kept value and no copy of a dropped one. */
  lemma {:induction false} WhereCount<T(!new)>(s: seq<T>, keep: T -> bool)
    ensures forall x :: multiset(Where(s, keep))[x] == if keep(x) then multiset(s)[x] else 0
  {
    if s != [] {
      WhereCount(s[1..], keep);
      assert s == [s[0]] + s[1..];
    }
  }

  /** In a duplicate-free sequence a value occurs at most once. */
  lemma {:induction false} OccursAtMostOnce<T>(s: seq<T>, x: T)
    requires NoDuplicates(s)
    ensures multiset(s)[x] <= 1
  {
    if s != [] {
      var tail := s[1..];
      assert s == [s[0]] + tail;
      assert NoDuplicates(tail) by {
        forall i, j | 0 <= i < j < |tail| ensures tail[i] != tail[j] {
          assert tail[i] == s[i + 1] && tail[j] == s[j + 1];
        }
      }
      OccursAtMostOnce(tail, x);
      if x == s[0] {
        assert x !in tail by {
          forall k | 0 <= k < |tail| ensures tail[k] != x {
            assert tail[k] == s[k + 1];
          }
        }
      }
    }
  }
}
