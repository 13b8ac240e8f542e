/**
 * The order index shared by the server's column and task actions:
 * `order = (max existing order in scope, or -1) + 1`, where the maximum is the
 * storage engine's `aggregate({ _max: { order } })` over the scope (the board
 * for columns, the column for tasks). The aggregate only sees the set of
 * values, so the scope is given as a set.
 */
module OrderIndex {

  /** The largest element of a non-empty finite set. */
  function Max(s: set<int>): (m: int)
    requires s != {}
    ensures m in s && forall x :: x in s ==> x <= m
  {
    MaxExists(s);
    var m :| m in s && forall x :: x in s ==> x <= m;
    m
  }

  /** Some element of a non-empty set. */
  lemma Pick<T>(s: set<T>) returns (x: T)
    requires s != {}
    ensures x in s
  {
    x :| x in s;
  }

  lemma {:induction false} MaxExists(s: set<int>)
    requires s != {}
    ensures exists m :: m in s && forall x :: x in s ==> x <= m
    decreases |s|
  {
    var x := Pick(s);
    if s != {x} {
      var rest := s - {x};
      MaxExists(rest);
      var m :| m in rest && forall y :: y in rest ==> y <= m;
      var top := if x <= m then m else x;
      forall y | y in s ensures y <= top {
        if y != x { assert y in rest; }
      }
    } else {
      assert forall y :: y in s ==> y <= x;
    }
  }

  /**
   * The order of an item appended to a scope whose items have `orders`: 0 in an
   * empty scope, otherwise one more than the largest, so it is strictly above
   * every existing order and it is the least such value.
   */
  function NextOrder(orders: set<int>): (r: int)
    ensures orders == {} ==> r == 0
    ensures forall o :: o in orders ==> o < r
    ensures orders != {} ==> r - 1 in orders
  {
    (if orders == {} then -1 else Max(orders)) + 1
  }

  /** No integer strictly above every existing order is smaller than NextOrder. */
  lemma NextOrderIsLeast(orders: set<int>, x: int)
    requires orders != {}
    requires forall o :: o in orders ==> o < x
    ensures NextOrder(orders) <= x
  {
  }

  /**
   * Appending to a scope after an append gives the next integer, so a run of
   * appends into one scope receives consecutive, hence distinct, increasing
   * orders.
   */
  lemma {:induction false} NextOrderAfterAppend(orders: set<int>)
    ensures NextOrder(orders + {NextOrder(orders)}) == NextOrder(orders) + 1
  {
    var n := NextOrder(orders);
    var next := orders + {n};
    assert n in next;
    assert forall o :: o in next ==> o <= n;
    assert Max(next) == n;
  }

  /** The orders of `count` successive appends into a scope that starts at `orders`. */
  function Appends(orders: set<int>, count: nat): (r: seq<int>)
    ensures |r| == count
    decreases count
  {
    if count == 0 then [] else [NextOrder(orders)] + Appends(orders + {NextOrder(orders)}, count - 1)
  }

  /**
   * Any number of appends into one scope, with no writer in between, receive
   * consecutive orders starting at NextOrder of the scope: distinct, increasing
   * in insertion sequence, and each above every order already present.
   */
  lemma {:induction false} AppendsAreConsecutive(orders: set<int>, count: nat)
    ensures forall i :: 0 <= i < count ==> Appends(orders, count)[i] == NextOrder(orders) + i
    decreases count
  {
    if count > 0 {
      var n := NextOrder(orders);
      AppendsAreConsecutive(orders + {n}, count - 1);
      NextOrderAfterAppend(orders);
    }
  }
}
