/** Order-preserving filtering and stable sorting of lists, the two list
    operations (Kotlin's `filter` and `sortedWith`) that the meeting service
    builds its results from, and a fact about sets that loops over sets use. */
module Seqs {

  /** An element of a set that is not empty; a loop that picks one with
      `:|` uses it as the witness. */
  lemma Pick<T>(s: set<T>) returns (x: T)
    requires s != {}
    ensures x in s
  {
    if forall y :: y !in s {
      assert false;
    }
    x :| x in s;
  }

  /** The elements of `s` that satisfy `keep`, in their original order. */
  function Filter<T(!new)>(s: seq<T>, keep: T -> bool): (r: seq<T>)
    ensures |r| <= |s|
    ensures forall x :: multiset(r)[x] == if keep(x) then multiset(s)[x] else 0
    ensures forall i :: 0 <= i < |r| ==> r[i] in s && keep(r[i])
  {
    if s == [] then []
    else
      var init := Filter(s[..|s| - 1], keep);
      assert s == s[..|s| - 1] + [s[|s| - 1]];
      if keep(s[|s| - 1]) then init + [s[|s| - 1]] else init
  }

  /** Filtering distributes over concatenation, so the kept elements of a
      list keep their relative order. */
  lemma {:induction false} FilterAppend<T(!new)>(a: seq<T>, b: seq<T>, keep: T -> bool)
    ensures Filter(a + b, keep) == Filter(a, keep) + Filter(b, keep)
  {
    if b == [] {
      assert a + b == a;
    } else {
      var b', last := b[..|b| - 1], b[|b| - 1];
      assert (a + b)[..|a + b| - 1] == a + b';
      assert (a + b)[|a + b| - 1] == last;
      FilterAppend(a, b', keep);
      if keep(last) {
        assert Filter(a + b, keep) == Filter(a + b', keep) + [last];
        assert Filter(b, keep) == Filter(b', keep) + [last];
      } else {
        assert Filter(a + b, keep) == Filter(a + b', keep);
        assert Filter(b, keep) == Filter(b', keep);
      }
    }
  }

  /** Filtering a list whose every element is kept returns it unchanged. */
  lemma {:induction false} FilterAllKept<T(!new)>(s: seq<T>, keep: T -> bool)
    requires forall i :: 0 <= i < |s| ==> keep(s[i])
    ensures Filter(s, keep) == s
  {
    if s != [] {
      var init, last := s[..|s| - 1], s[|s| - 1];
      assert forall i :: 0 <= i < |init| ==> init[i] == s[i];
      FilterAllKept(init, keep);
      assert keep(last);
      assert Filter(s, keep) == Filter(init, keep) + [last];
      assert s == init + [last];
    }
  }

  /** An element of a filtered list is an element of the list that is kept. */
  lemma FilterMember<T(!new)>(s: seq<T>, keep: T -> bool, x: T)
    requires x in Filter(s, keep)
    ensures x in s && keep(x)
  {
    var r := Filter(s, keep);
    var i :| 0 <= i < |r| && r[i] == x;
  }

  /** Filtering by a test and by its negation splits a list in two. */
  lemma FilterSplits<T(!new)>(s: seq<T>, keep: T -> bool, drop: T -> bool)
    requires forall x :: drop(x) == !keep(x)
    ensures multiset(Filter(s, keep)) + multiset(Filter(s, drop)) == multiset(s)
  {
    var a, b := Filter(s, keep), Filter(s, drop);
    forall x ensures (multiset(a) + multiset(b))[x] == multiset(s)[x] {
      assert multiset(a)[x] == if keep(x) then multiset(s)[x] else 0;
      assert multiset(b)[x] == if drop(x) then multiset(s)[x] else 0;
    }
  }

  /** The number of elements of `s` that satisfy `p`. */
  function Count<T(!new)>(s: seq<T>, p: T -> bool): (n: nat)
    ensures n <= |s|
    ensures n == |Filter(s, p)|
  {
    if s == [] then 0
    else Count(s[..|s| - 1], p) + (if p(s[|s| - 1]) then 1 else 0)
  }

  /** `leq` relates every pair one way or the other. */
  ghost predicate Total<T(!new)>(leq: (T, T) -> bool) {
    forall a, b :: leq(a, b) || leq(b, a)
  }

  /** Every element is `leq` its successor. */
  ghost predicate SortedBy<T>(s: seq<T>, leq: (T, T) -> bool) {
    forall i :: 0 < i < |s| ==> leq(s[i - 1], s[i])
  }

  /** Inserts `x` in front of the first element it is `leq` to; an element
      is placed before the equal ones that follow it, which keeps the sort
      stable. */
  function Insert<T(!new)>(x: T, s: seq<T>, leq: (T, T) -> bool): (r: seq<T>)
    requires Total(leq) && SortedBy(s, leq)
    ensures multiset(r) == multiset(s) + multiset{x}
    ensures SortedBy(r, leq)
    ensures |r| == |s| + 1
    ensures r[0] == x || (s != [] && r[0] == s[0])
  {
    if s == [] || leq(x, s[0]) then [x] + s
    else
      var tail := Insert(x, s[1..], leq);
      assert s == [s[0]] + s[1..];
      assert leq(s[0], x);
      [s[0]] + tail
  }

  /** A stable sort of `s` by `leq` (the model of Kotlin's `sortedWith`). */
  function InsertionSort<T(!new)>(s: seq<T>, leq: (T, T) -> bool): (r: seq<T>)
    requires Total(leq)
    ensures multiset(r) == multiset(s)
    ensures SortedBy(r, leq)
    ensures |r| == |s|
  {
    if s == [] then []
    else
      assert s == [s[0]] + s[1..];
      Insert(s[0], InsertionSort(s[1..], leq), leq)
  }
}
