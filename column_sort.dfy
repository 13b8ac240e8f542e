/**
 * The stable sort the guest replica applies to its column list,
 * `columns.sort((a, b) => a.order - b.order)`, as an insertion sort: each
 * column goes before the first column of the sorted rest whose order is not
 * smaller, so columns with equal orders keep their relative positions.
 */
module ColumnSort {
  import opened Cards

  predicate SortedByOrder(s: seq<ColumnWithTasks>) {
    forall i, j :: 0 <= i < j < |s| ==> s[i].order <= s[j].order
  }

  /** The columns of `s` whose order is `k`, in their order in `s`. */
  function WithOrder(s: seq<ColumnWithTasks>, k: int): seq<ColumnWithTasks> {
    if s == [] then []
    else (if s[0].order == k then [s[0]] else []) + WithOrder(s[1..], k)
  }

  function Insert(x: ColumnWithTasks, s: seq<ColumnWithTasks>): (r: seq<ColumnWithTasks>)
    ensures multiset(r) == multiset(s) + multiset{x}
    ensures SortedByOrder(s) ==> SortedByOrder(r)
  {
    if s == [] || x.order <= s[0].order then
      InsertFront(x, s);
      [x] + s
    else
      var rest := Insert(x, s[1..]);
      InsertBehind(x, s, rest);
      [s[0]] + rest
  }

  /** A column no larger than the head of a sorted list goes in front of it. */
  lemma InsertFront(x: ColumnWithTasks, s: seq<ColumnWithTasks>)
    requires s == [] || x.order <= s[0].order
    ensures multiset([x] + s) == multiset(s) + multiset{x}
    ensures SortedByOrder(s) ==> SortedByOrder([x] + s)
  {
    if SortedByOrder(s) {
      assert forall j :: 0 <= j < |s| ==> s[0].order <= s[j].order;
      HeadBelowSorted(x, s);
    }
  }

  /** A column larger than the head goes into the rest, behind the head. */
  lemma InsertBehind(x: ColumnWithTasks, s: seq<ColumnWithTasks>, rest: seq<ColumnWithTasks>)
    requires s != [] && x.order > s[0].order
    requires multiset(rest) == multiset(s[1..]) + multiset{x}
    requires SortedByOrder(s[1..]) ==> SortedByOrder(rest)
    ensures multiset([s[0]] + rest) == multiset(s) + multiset{x}
    ensures SortedByOrder(s) ==> SortedByOrder([s[0]] + rest)
  {
    assert s == [s[0]] + s[1..];
    if SortedByOrder(s) {
      var t := s[1..];
      assert SortedByOrder(t);
      forall c | c in t
        ensures c.order >= s[0].order
      {
        var k :| 0 <= k < |t| && t[k] == c;
        assert c == s[k + 1];
      }
      LowerBoundKept(rest, t, x, s[0].order);
      HeadBelowSorted(s[0], rest);
    }
  }

  /** A column whose order is at most every order of a sorted list can go in front of it. */
  lemma HeadBelowSorted(h: ColumnWithTasks, s: seq<ColumnWithTasks>)
    requires SortedByOrder(s) && forall j :: 0 <= j < |s| ==> h.order <= s[j].order
    ensures SortedByOrder([h] + s)
  {
    var r := [h] + s;
    forall i, j | 0 <= i < j < |r|
      ensures r[i].order <= r[j].order
    {
      assert r[j] == s[j - 1];
      if i > 0 {
        assert r[i] == s[i - 1];
      }
    }
  }

  /** A permutation of `s` and `x` has every order at least `b` when they do. */
  lemma LowerBoundKept(r: seq<ColumnWithTasks>, s: seq<ColumnWithTasks>, x: ColumnWithTasks, b: int)
    requires multiset(r) == multiset(s) + multiset{x}
    ensures (x.order >= b && forall c :: c in s ==> c.order >= b) ==> forall j :: 0 <= j < |r| ==> r[j].order >= b
  {
    forall j | 0 <= j < |r| && x.order >= b && (forall c :: c in s ==> c.order >= b)
      ensures r[j].order >= b
    {
      assert r[j] in multiset(r);
      assert r[j] == x || r[j] in multiset(s);
    }
  }

  /** The sort: ordered by `order`, and a permutation of its input. */
  function SortByOrder(s: seq<ColumnWithTasks>): (r: seq<ColumnWithTasks>)
    ensures SortedByOrder(r)
    ensures multiset(r) == multiset(s)
  {
    if s == [] then []
    else
      assert s == [s[0]] + s[1..];
      Insert(s[0], SortByOrder(s[1..]))
  }

  lemma {:induction false} InsertWithOrder(x: ColumnWithTasks, s: seq<ColumnWithTasks>, k: int)
    ensures WithOrder(Insert(x, s), k) == (if x.order == k then [x] else []) + WithOrder(s, k)
  {
    if s == [] || x.order <= s[0].order {
      assert ([x] + s)[1..] == s;
    } else {
      var rest := Insert(x, s[1..]);
      assert ([s[0]] + rest)[1..] == rest;
      InsertWithOrder(x, s[1..], k);
    }
  }

  /** Stability: the columns that share an order come out in the order they went in. */
  lemma {:induction false} SortIsStable(s: seq<ColumnWithTasks>, k: int)
    ensures WithOrder(SortByOrder(s), k) == WithOrder(s, k)
  {
    if s != [] {
      SortIsStable(s[1..], k);
      InsertWithOrder(s[0], SortByOrder(s[1..]), k);
    }
  }

  /** A list already in order is left as it is. */
  lemma {:induction false} SortOfSorted(s: seq<ColumnWithTasks>)
    requires SortedByOrder(s)
    ensures SortByOrder(s) == s
  {
    if s != [] {
      assert SortedByOrder(s[1..]);
      SortOfSorted(s[1..]);
      assert s == [s[0]] + s[1..];
    }
  }

  /** Appending a column whose order is not below any other keeps a list in order. */
  lemma AppendLargestKeepsSorted(s: seq<ColumnWithTasks>, c: ColumnWithTasks)
    requires SortedByOrder(s)
    requires forall i :: 0 <= i < |s| ==> s[i].order <= c.order
    ensures SortedByOrder(s + [c])
  {
    var t := s + [c];
    forall i, j | 0 <= i < j < |t|
      ensures t[i].order <= t[j].order
    {
      assert t[i] == s[i];
      if j < |s| {
        assert t[j] == s[j];
      }
    }
  }
}
