/** `sort_values(ascending=False)` followed by `head(k)`, as the top-10 page and
    the dominant-type tooltip use it: a descending order on an optional numeric
    key, with missing values (NaN) placed last. */
module Sorting {
  import opened Frames

  /** In a descending order with missing values last, `a` may stand before `b`. */
  predicate Ahead(a: Option<real>, b: Option<real>) {
    b.None? || (a.Some? && a.value >= b.value)
  }

  lemma AheadTotal(a: Option<real>, b: Option<real>)
    ensures Ahead(a, b) || Ahead(b, a)
  {
  }

  lemma AheadTransitive(a: Option<real>, b: Option<real>, c: Option<real>)
    requires Ahead(a, b) && Ahead(b, c)
    ensures Ahead(a, c)
  {
  }

  ghost predicate SortedDesc<T>(xs: seq<T>, key: T -> Option<real>) {
    forall i, j :: 0 <= i < j < |xs| ==> Ahead(key(xs[i]), key(xs[j]))
  }

  /** Puts `x` before the first element it may stand before. */
  function Insert<T>(x: T, xs: seq<T>, key: T -> Option<real>): (r: seq<T>)
    requires SortedDesc(xs, key)
    ensures |r| == |xs| + 1 && multiset(r) == multiset(xs) + multiset{x}
    ensures SortedDesc(r, key)
  {
    if xs == [] || Ahead(key(x), key(xs[0])) then
      var r := [x] + xs;
      assert forall j :: 0 < j < |r| ==> Ahead(key(xs[0]), key(r[j]));
      r
    else
      var rest := Insert(x, xs[1..], key);
      var r := [xs[0]] + rest;
      assert xs == [xs[0]] + xs[1..];
      assert multiset(r) == multiset{xs[0]} + multiset(rest);
      InsertHead(xs, x, rest, key);
      r
  }

  lemma InsertHead<T>(xs: seq<T>, x: T, rest: seq<T>, key: T -> Option<real>)
    requires xs != [] && SortedDesc(xs, key) && !Ahead(key(x), key(xs[0]))
    requires multiset(rest) == multiset(xs[1..]) + multiset{x} && SortedDesc(rest, key)
    ensures SortedDesc([xs[0]] + rest, key)
  {
    var r := [xs[0]] + rest;
    forall j | 0 < j < |r|
      ensures Ahead(key(xs[0]), key(r[j]))
    {
      assert r[j] in multiset(rest);
      if r[j] == x {
        AheadTotal(key(x), key(xs[0]));
      } else {
        assert r[j] in multiset(xs[1..]);
        var k :| 0 <= k < |xs[1..]| && xs[1..][k] == r[j];
        assert xs[k + 1] == r[j];
      }
    }
  }

  /** The sorted order the pages display: descending by `key`, missing keys
      last, and a permutation of the input. Equal keys keep their input order,
      one of the orders pandas' unstable sort may produce. */
  function SortDesc<T>(xs: seq<T>, key: T -> Option<real>): (r: seq<T>)
    ensures |r| == |xs| && multiset(r) == multiset(xs)
    ensures SortedDesc(r, key)
  {
    if xs == [] then []
    else
      assert xs == [xs[0]] + xs[1..];
      Insert(xs[0], SortDesc(xs[1..], key), key)
  }

  function Min(a: nat, b: nat): nat {
    if a <= b then a else b
  }

  /** `sort_values(ascending=False).head(k)`. */
  function TopK<T>(xs: seq<T>, k: nat, key: T -> Option<real>): (r: seq<T>)
    ensures |r| == Min(k, |xs|)
    ensures SortedDesc(r, key)
    ensures multiset(r) <= multiset(xs)
  {
    var s := SortDesc(xs, key);
    var m := Min(k, |xs|);
    assert s == s[..m] + s[m..];
    assert multiset(s) == multiset(s[..m]) + multiset(s[m..]);
    s[..m]
  }

  /** Whatever `head(k)` leaves out stands behind everything it keeps: its key is
      no larger than every kept key, and missing keys are left out first. */
  lemma TopKKeepsLargest<T>(xs: seq<T>, k: nat, key: T -> Option<real>, y: T)
    requires y in multiset(xs) - multiset(TopK(xs, k, key))
    ensures forall x :: x in TopK(xs, k, key) ==> Ahead(key(x), key(y))
  {
    var s := SortDesc(xs, key);
    var m := Min(k, |xs|);
    var top, rest := s[..m], s[m..];
    assert s == top + rest;
    assert multiset(s) == multiset(top) + multiset(rest);
    assert y in multiset(rest);
    var j :| 0 <= j < |rest| && rest[j] == y;
    forall x | x in top
      ensures Ahead(key(x), key(y))
    {
      var i :| 0 <= i < |top| && top[i] == x;
      assert s[i] == x && s[m + j] == y;
    }
  }

  /** `TopKKeepsLargest` for every element left out at once. */
  lemma TopKKeepsAllLargest<T>(xs: seq<T>, k: nat, key: T -> Option<real>)
    ensures forall x, y :: x in TopK(xs, k, key) && y in multiset(xs) - multiset(TopK(xs, k, key)) ==> Ahead(key(x), key(y))
  {
    forall x, y | x in TopK(xs, k, key) && y in multiset(xs) - multiset(TopK(xs, k, key))
      ensures Ahead(key(x), key(y))
    {
      TopKKeepsLargest(xs, k, key, y);
    }
  }
}
