/** Turning the sets a store lists into sequences. */
module Listings {
  ghost predicate Distinct(s: seq<nat>) {
    forall i, j :: 0 <= i < j < |s| ==> s[i] != s[j]
  }

  predicate Ascending(s: seq<nat>) {
    forall i, j :: 0 <= i < j < |s| ==> s[i] < s[j]
  }

  /** Every element once, in ascending order. */
  method Sorted(elements: set<nat>) returns (s: seq<nat>)
    ensures Ascending(s) && forall d :: d in s <==> d in elements
    ensures forall i :: 0 < i < |s| ==> s[i - 1] < s[i]
  {
    var todo := elements;
    s := [];
    while todo != {}
      invariant todo <= elements && Ascending(s)
      invariant forall d :: d in s <==> d in elements - todo
      invariant forall i, d :: 0 <= i < |s| && d in todo ==> s[i] < d
      decreases todo
    {
      var least :| least in todo;
      var rest := todo - {least};
      while rest != {}
        invariant rest <= todo && least in todo && least !in rest
        invariant forall d :: d in todo ==> d in rest || least <= d
        decreases rest
      {
        var d :| d in rest;
        if d < least {
          least := d;
        }
        rest := rest - {d};
      }
      s := s + [least];
      todo := todo - {least};
    }
  }

  /** Every element once, in whatever order the store returns them. */
  method InAnyOrder(elements: set<nat>) returns (s: seq<nat>)
    ensures Distinct(s) && forall d :: d in s <==> d in elements
  {
    s := [];
    var todo := elements;
    while todo != {}
      invariant todo <= elements && Distinct(s)
      invariant forall d :: d in s <==> d in elements - todo
      decreases todo
    {
      var d :| d in todo;
      assert forall i :: 0 <= i < |s| ==> s[i] in s;
      s := s + [d];
      todo := todo - {d};
    }
  }

  // ------------------------------------------------------------ names

  /** The order of strings, character by character. */
  predicate Before(a: string, b: string) {
    b != "" && (a == "" || a[0] < b[0] || (a[0] == b[0] && Before(a[1..], b[1..])))
  }

  /** Where two names first differ, the one that ends or has the smaller character comes before. */
  lemma {:induction false} BeforeExactly(a: string, b: string)
    ensures Before(a, b) <==> exists n :: 0 <= n < |b| && n <= |a| && a[..n] == b[..n] && (n == |a| || a[n] < b[n])
  {
    if a != "" && b != "" && a[0] == b[0] {
      BeforeExactly(a[1..], b[1..]);
      var x, y := a[1..], b[1..];
      if n :| 0 <= n < |y| && n <= |x| && x[..n] == y[..n] && (n == |x| || x[n] < y[n]) {
        assert a[..n + 1] == [a[0]] + x[..n] && b[..n + 1] == [b[0]] + y[..n];
      }
      if n :| 0 <= n < |b| && n <= |a| && a[..n] == b[..n] && (n == |a| || a[n] < b[n]) {
        assert n > 0;
        assert x[..n - 1] == a[..n][1..] && y[..n - 1] == b[..n][1..];
      }
    } else if b != "" {
      assert a[..0] == b[..0];
      if n :| 0 <= n < |b| && n <= |a| && a[..n] == b[..n] && (n == |a| || a[n] < b[n]) {
        assert n > 0 ==> a[..n][0] == b[..n][0];
      }
    }
  }

  lemma {:induction false} BeforeOrAfter(a: string, b: string)
    ensures a == b || Before(a, b) || Before(b, a)
  {
    if a != "" && b != "" && a[0] == b[0] {
      BeforeOrAfter(a[1..], b[1..]);
      assert a == [a[0]] + a[1..] && b == [b[0]] + b[1..];
    }
  }

  lemma {:induction false} BeforeTransitive(a: string, b: string, c: string)
    requires Before(a, b) && Before(b, c)
    ensures Before(a, c)
  {
    if a != "" && a[0] == b[0] == c[0] {
      BeforeTransitive(a[1..], b[1..], c[1..]);
    }
  }

  predicate InOrder(names: seq<string>) {
    forall i, j :: 0 <= i < j < |names| ==> Before(names[i], names[j])
  }

  method FirstName(names: set<string>) returns (first: string)
    requires names != {}
    ensures first in names && forall n :: n in names ==> n == first || Before(first, n)
  {
    hide Before;
    first :| first in names;
    var rest := names - {first};
    while rest != {}
      invariant rest <= names && first in names
      invariant forall n :: n in names ==> n in rest || n == first || Before(first, n)
      decreases rest
    {
      var n :| n in rest;
      BeforeOrAfter(first, n);
      if Before(n, first) {
        forall m | m in names && m !in rest ensures m == n || Before(n, m) {
          if m != first { BeforeTransitive(n, first, m); }
        }
        first := n;
      }
      rest := rest - {n};
    }
  }

  /** Every name once, in ascending order. */
  method SortedNames(names: set<string>) returns (s: seq<string>)
    ensures InOrder(s) && forall n :: n in s <==> n in names
    ensures forall i :: 0 < i < |s| ==> Before(s[i - 1], s[i])
  {
    hide Before;
    var todo := names;
    s := [];
    while todo != {}
      invariant todo <= names && InOrder(s)
      invariant forall n :: n in s <==> n in names - todo
      invariant forall i, n :: 0 <= i < |s| && n in todo ==> Before(s[i], n)
      decreases todo
    {
      var first := FirstName(todo);
      s := s + [first];
      todo := todo - {first};
    }
  }
}
