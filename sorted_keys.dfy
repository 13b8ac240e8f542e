/**
 * The storage engine's `ORDER BY key ASC`: the ids of a table, listed by
 * ascending key. The source leaves the order of rows with equal keys to the
 * engine; this model breaks such ties by the id, in code-point order, so that
 * the readers are functions.
 */
module SortedKeys {

  /** Lexicographic order on strings (a prefix comes first). */
  predicate StrLe(a: string, b: string)
    decreases |a|
  {
    a == [] || (b != [] && (a[0] < b[0] || (a[0] == b[0] && StrLe(a[1..], b[1..]))))
  }

  lemma StrLeTotal(a: string, b: string)
    ensures StrLe(a, b) || StrLe(b, a)
    decreases |a|
  {
    if a != [] && b != [] && a[0] == b[0] { StrLeTotal(a[1..], b[1..]); }
  }

  lemma StrLeAntisymmetric(a: string, b: string)
    requires StrLe(a, b) && StrLe(b, a)
    ensures a == b
    decreases |a|
  {
    if a != [] {
      StrLeAntisymmetric(a[1..], b[1..]);
      assert a == [a[0]] + a[1..];
      assert b == [b[0]] + b[1..];
    }
  }

  lemma StrLeTransitive(a: string, b: string, c: string)
    requires StrLe(a, b) && StrLe(b, c)
    ensures StrLe(a, c)
    decreases |a|
  {
    if a != [] && b != [] && c != [] && a[0] == b[0] == c[0] {
      StrLeTransitive(a[1..], b[1..], c[1..]);
    }
  }

  /** `a` is listed no later than `b`: smaller key, or equal key and smaller id. */
  predicate Precedes(keys: map<string, int>, a: string, b: string)
    requires a in keys && b in keys
  {
    keys[a] < keys[b] || (keys[a] == keys[b] && StrLe(a, b))
  }

  /** `m` is the id listed first. */
  predicate IsFirst(keys: map<string, int>, m: string) {
    m in keys && forall y :: y in keys ==> Precedes(keys, m, y)
  }

  lemma {:induction false} FirstExists(keys: map<string, int>)
    requires |keys| > 0
    ensures exists m :: IsFirst(keys, m)
    decreases |keys|
  {
    var x :| x in keys;
    var rest := keys - {x};
    assert rest.Keys == keys.Keys - {x};
    if |rest| == 0 {
      assert keys.Keys == {x};
      StrLeTotal(x, x);
      assert IsFirst(keys, x);
    } else {
      FirstExists(rest);
      var m :| IsFirst(rest, m);
      StrLeTotal(m, x);
      if Precedes(keys, m, x) {
        forall y | y in keys ensures Precedes(keys, m, y) {
          if y != x { assert y in rest && Precedes(rest, m, y); }
        }
        assert IsFirst(keys, m);
      } else {
        forall y | y in keys ensures Precedes(keys, x, y) {
          if y == x {
            StrLeTotal(x, x);
          } else {
            assert y in rest && Precedes(rest, m, y);
            if keys[x] == keys[m] == keys[y] { StrLeTransitive(x, m, y); }
          }
        }
        assert IsFirst(keys, x);
      }
    }
  }

  lemma FirstUnique(keys: map<string, int>)
    ensures forall a, b :: IsFirst(keys, a) && IsFirst(keys, b) ==> a == b
  {
    forall a, b | IsFirst(keys, a) && IsFirst(keys, b) ensures a == b {
      assert Precedes(keys, a, b) && Precedes(keys, b, a);
      StrLeAntisymmetric(a, b);
    }
  }

  /**
   * The ids of `keys` by ascending key: every id exactly once, and each listed
   * before every id that comes after it in the (key, id) order.
   */
  function Sorted(keys: map<string, int>): (r: seq<string>)
    ensures |r| == |keys|
    ensures forall i :: 0 <= i < |r| ==> r[i] in keys
    ensures forall k :: k in keys ==> k in r
    ensures forall i, j :: 0 <= i < j < |r| ==> r[i] != r[j] && Precedes(keys, r[i], r[j])
    decreases |keys|
  {
    if |keys| == 0 then []
    else
      FirstExists(keys);
      FirstUnique(keys);
      var m :| IsFirst(keys, m);
      var rest := keys - {m};
      var tail := Sorted(rest);
      ConsFacts(keys, m, rest, tail);
      [m] + tail
  }

  lemma ConsFacts(keys: map<string, int>, m: string, rest: map<string, int>, tail: seq<string>)
    requires IsFirst(keys, m) && rest == keys - {m}
    requires |tail| == |rest|
    requires forall i :: 0 <= i < |tail| ==> tail[i] in rest
    requires forall k :: k in rest ==> k in tail
    requires forall i, j :: 0 <= i < j < |tail| ==> tail[i] != tail[j] && Precedes(rest, tail[i], tail[j])
    ensures var r := [m] + tail;
      && |r| == |keys|
      && (forall i :: 0 <= i < |r| ==> r[i] in keys)
      && (forall k :: k in keys ==> k in r)
      && (forall i, j :: 0 <= i < j < |r| ==> r[i] != r[j] && Precedes(keys, r[i], r[j]))
  {
    assert rest.Keys == keys.Keys - {m};
    var r := [m] + tail;
    forall k | k in keys ensures k in r {
      if k != m { assert k in rest; }
    }
    ConsOrdered(keys, m, rest, tail);
  }

  /** The first id followed by the rest in order is in order. */
  lemma ConsOrdered(keys: map<string, int>, m: string, rest: map<string, int>, tail: seq<string>)
    requires IsFirst(keys, m) && rest == keys - {m}
    requires forall i :: 0 <= i < |tail| ==> tail[i] in rest
    requires forall i, j :: 0 <= i < j < |tail| ==> tail[i] != tail[j] && Precedes(rest, tail[i], tail[j])
    ensures var r := [m] + tail;
      forall i, j :: 0 <= i < j < |r| ==> r[i] in keys && r[j] in keys && r[i] != r[j] && Precedes(keys, r[i], r[j])
  {
    var r := [m] + tail;
    forall i, j | 0 <= i < j < |r|
      ensures r[i] in keys && r[j] in keys && r[i] != r[j] && Precedes(keys, r[i], r[j])
    {
      assert r[j] == tail[j - 1] && r[j] in rest;
      if i > 0 {
        assert r[i] == tail[i - 1];
        assert Precedes(rest, tail[i - 1], tail[j - 1]);
      }
    }
  }

  /** In particular the keys of the listed ids never decrease. */
  lemma SortedAscending(keys: map<string, int>, i: int, j: int)
    requires 0 <= i < j < |keys|
    ensures keys[Sorted(keys)[i]] <= keys[Sorted(keys)[j]]
  {
  }
}
