/** Sorting as the Go standard library promises it, and the one sorted listing
    a set has, which is what makes the guard's output deterministic. */
module Sorting {

  ghost predicate StrictOrder<T(!new)>(less: (T, T) -> bool) {
    && (forall x :: !less(x, x))
    && (forall x, y :: less(x, y) || x == y || less(y, x))
    && (forall x, y, z :: less(x, y) && less(y, z) ==> less(x, z))
  }

  ghost predicate Increasing<T>(less: (T, T) -> bool, s: seq<T>) {
    forall i, j | 0 <= i < j < |s| :: less(s[i], s[j])
  }

  /** `out` holds exactly the members of `s`, each once, in increasing order. */
  ghost predicate Lists<T(!new)>(less: (T, T) -> bool, out: seq<T>, s: set<T>) {
    Increasing(less, out) && forall x :: x in out <==> x in s
  }

  ghost predicate Distinct<T>(s: seq<T>) {
    forall i, j | 0 <= i < j < |s| :: s[i] != s[j]
  }

  function Insert<T(!new)>(less: (T, T) -> bool, x: T, s: seq<T>): (r: seq<T>)
    requires StrictOrder(less) && Increasing(less, s) && x !in s
    ensures Increasing(less, r) && forall y :: y in r <==> y == x || y in s
  {
    if s == [] || less(x, s[0]) then
      [x] + s
    else
      var rest := Insert(less, x, s[1..]);
      assert forall y | y in rest :: less(s[0], y);
      [s[0]] + rest
  }

  function Sort<T(!new)>(less: (T, T) -> bool, s: seq<T>): (r: seq<T>)
    requires StrictOrder(less) && Distinct(s)
    ensures Increasing(less, r) && forall y :: y in r <==> y in s
  {
    if s == [] then [] else Insert(less, s[0], Sort(less, s[1..]))
  }

  /** A set has at most one sorted listing. */
  lemma {:induction false} ListingIsUnique<T(!new)>(less: (T, T) -> bool, a: seq<T>, b: seq<T>, s: set<T>)
    requires StrictOrder(less) && Lists(less, a, s) && Lists(less, b, s)
    ensures a == b
    decreases |a|
  {
    assert |b| > 0 ==> b[0] in s && b[0] in a;
    if a != [] {
      assert a[0] in b;
      assert b[0] in a;
      assert a[0] == b[0];
      var t := s - {a[0]};
      assert forall x :: x in a[1..] <==> x in t;
      assert forall x :: x in b[1..] <==> x in t by { assert b == [b[0]] + b[1..]; }
      ListingIsUnique(less, a[1..], b[1..], t);
      assert a == [a[0]] + a[1..] && b == [b[0]] + b[1..];
    }
  }

  /** Ranging over a Go map yields its keys in any order; sorting settles it. */
  method SortedKeys<T(!new,==)>(less: (T, T) -> bool, keys: set<T>) returns (out: seq<T>)
    requires StrictOrder(less)
    ensures Lists(less, out, keys)
  {
    var rest, found := keys, [];
    while rest != {}
      invariant rest <= keys
      invariant forall x :: x in found <==> x in keys && x !in rest
      invariant Distinct(found)
      decreases rest
    {
      var x :| x in rest;
      rest, found := rest - {x}, found + [x];
    }
    out := Sort(less, found);
  }

  /** Byte order of strings, Go's `<`. */
  predicate StringLess(a: string, b: string) {
    if b == [] then false
    else if a == [] then true
    else a[0] < b[0] || (a[0] == b[0] && StringLess(a[1..], b[1..]))
  }

  lemma {:induction false} StringLessTransitive(a: string, b: string, c: string)
    requires StringLess(a, b) && StringLess(b, c)
    ensures StringLess(a, c)
    decreases |a|
  {
    if a != [] && a[0] == b[0] && b[0] == c[0] {
      StringLessTransitive(a[1..], b[1..], c[1..]);
    }
  }

  lemma {:induction false} StringLessTotal(a: string, b: string)
    ensures StringLess(a, b) || a == b || StringLess(b, a)
    ensures !(StringLess(a, b) && StringLess(b, a))
    ensures !StringLess(a, a)
    decreases |a|
  {
    if a != [] {
      StringLessTotal(a[1..], if b == [] then [] else b[1..]);
      if b != [] && a[0] == b[0] && a[1..] == b[1..] {
        assert a == [a[0]] + a[1..] && b == [b[0]] + b[1..];
      }
    }
  }

  lemma StringOrder()
    ensures StrictOrder(StringLess)
  {
    forall a: string, b: string { StringLessTotal(a, b); }
    forall a: string, b: string, c: string | StringLess(a, b) && StringLess(b, c) { StringLessTransitive(a, b, c); }
  }

  method SortedStrings(keys: set<string>) returns (out: seq<string>)
    ensures Lists<string>(StringLess, out, keys)
  {
    StringOrder();
    out := SortedKeys<string>(StringLess, keys);
  }
}
