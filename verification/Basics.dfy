/** Small functions shared by several modules. */
module Basics {

  function Max(a: int, b: int): int {
    if a > b then a else b
  }

  function Min(a: int, b: int): int {
    if a < b then a else b
  }

  /** No element occurs twice. */
  predicate NoDup<X(==)>(s: seq<X>) {
    forall i, j :: 0 <= i < j < |s| ==> s[i] != s[j]
  }

  /** The elements of `keep`, in the order of `s`. */
  function Only<X(==)>(s: seq<X>, keep: set<X>): seq<X> {
    if s == [] then [] else (if s[0] in keep then [s[0]] else []) + Only(s[1..], keep)
  }

  lemma {:induction false} OnlyAppend<X>(a: seq<X>, b: seq<X>, keep: set<X>)
    ensures Only(a + b, keep) == Only(a, keep) + Only(b, keep)
  {
    if a == [] {
      assert a + b == b;
    } else {
      OnlyAppend(a[1..], b, keep);
      assert (a + b)[1..] == a[1..] + b;
      var first := if a[0] in keep then [a[0]] else [];
      assert Only(a + b, keep) == first + Only(a[1..] + b, keep);
      assert Only(a, keep) == first + Only(a[1..], keep);
    }
  }

  lemma {:induction false} OnlyAll<X>(s: seq<X>, keep: set<X>)
    requires forall i :: 0 <= i < |s| ==> s[i] in keep
    ensures Only(s, keep) == s
  {
    if s != [] {
      OnlyAll(s[1..], keep);
    }
  }

  lemma {:induction false} OnlyNone<X>(s: seq<X>, keep: set<X>)
    requires forall i :: 0 <= i < |s| ==> s[i] !in keep
    ensures Only(s, keep) == []
  {
    if s != [] {
      OnlyNone(s[1..], keep);
    }
  }
}
