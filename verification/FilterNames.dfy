/**
  What the two push_filter functions call the moved translator and the filter, by the parts of the
  names and types.
 */
module FilterNames {
  import opened Wrappers
  import opened PushFilter

  // ---- the second part of a type -----------------------------------------------------

  /** `k` is what stands in `t` between its first slash and the next one, or the end. */
  ghost predicate Kind(t: string, k: string) {
    exists x, rest :: KindAt(t, x, k, rest)
  }

  predicate KindAt(t: string, x: string, k: string, rest: string) {
    t == x + "/" + k + rest && '/' !in x && '/' !in k && (rest != "" ==> rest[0] == '/')
  }

  lemma {:induction false} BeforeIs(k: string, rest: string)
    requires '/' !in k && (rest != "" ==> rest[0] == '/')
    ensures BeforeSlash(k + rest) == k
  {
    if k == "" {
      assert k + rest == rest;
    } else {
      assert (k + rest)[1..] == k[1..] + rest;
      BeforeIs(k[1..], rest);
    }
  }

  lemma {:induction false} KindOf(t: string, x: string, k: string, rest: string)
    requires KindAt(t, x, k, rest)
    ensures Second(t) == Some(k)
    decreases |x|
  {
    if x == "" {
      assert t[1..] == k + rest;
      BeforeIs(k, rest);
    } else {
      assert t[1..] == x[1..] + "/" + k + rest;
      KindOf(t[1..], x[1..], k, rest);
    }
  }

  lemma {:induction false} CutBefore(t: string) returns (rest: string)
    ensures t == BeforeSlash(t) + rest && '/' !in BeforeSlash(t) && (rest != "" ==> rest[0] == '/')
  {
    if t == "" || t[0] == '/' {
      rest := t;
    } else {
      rest := CutBefore(t[1..]);
    }
  }

  lemma {:induction false} CutKind(t: string) returns (x: string, rest: string)
    requires Typed(t)
    ensures KindAt(t, x, Second(t).value, rest)
  {
    if t[0] == '/' {
      x := "";
      rest := CutBefore(t[1..]);
    } else {
      x, rest := CutKind(t[1..]);
      x := [t[0]] + x;
    }
  }

  /** t.split("/")[1] is that part; there is one exactly when there is a slash. */
  lemma SecondIsKind(t: string, k: string)
    ensures Second(t) == Some(k) <==> Kind(t, k)
  {
    if Kind(t, k) {
      var x, rest :| KindAt(t, x, k, rest);
      KindOf(t, x, k, rest);
    }
    if Second(t) == Some(k) {
      var x, rest := CutKind(t);
    }
  }

  // ---- the first occurrence ----------------------------------------------------------

  predicate OccursAt(s: string, pat: string, i: nat) {
    i <= |s| && pat <= s[i..]
  }

  /** `pat` occurs in `s` at `i` and not before. */
  predicate FirstAt(s: string, pat: string, i: nat) {
    OccursAt(s, pat, i) && forall j :: 0 <= j < i ==> !OccursAt(s, pat, j)
  }

  lemma {:induction false} FindIsFirst(s: string, pat: string)
    ensures match Find(s, pat) {
      case Some(i) => FirstAt(s, pat, i)
      case None => forall j :: 0 <= j <= |s| ==> !OccursAt(s, pat, j)
    }
  {
    assert s[0..] == s;
    if !(pat <= s) && s != "" {
      FindIsFirst(s[1..], pat);
      forall j | 1 <= j <= |s| ensures OccursAt(s, pat, j) == OccursAt(s[1..], pat, j - 1) {
        assert s[1..][j - 1..] == s[j..];
      }
    }
  }

  // ---- the names ---------------------------------------------------------------------

  /** prot_filter, when the name holds the suffix of its type: the filter gets the name with its own
      suffix in that place. */
  lemma ProtNamesReplace(a: string, b: string, typ: string, k: string, filter: string, f: string)
    requires Kind(typ, k) && Kind(filter, f) && FirstAt(a + ("-" + k) + b, "-" + k, |a|)
    ensures Typed(typ) && Typed(filter)
    ensures ProtNames(a + ("-" + k) + b, typ, filter) == (a + ("-" + k) + b, a + ("-" + f) + b)
  {
    var name := a + ("-" + k) + b;
    SecondIsKind(typ, k);
    SecondIsKind(filter, f);
    FindIsFirst(name, "-" + k);
    assert Find(name, "-" + k) == Some(|a|);
    assert name[..|a|] == a && name[|a| + |"-" + k|..] == b;
  }

  /** prot_filter, when it does not: both suffixes are appended. */
  lemma ProtNamesAppend(name: string, typ: string, k: string, filter: string, f: string)
    requires Kind(typ, k) && Kind(filter, f) && forall j :: 0 <= j <= |name| ==> !OccursAt(name, "-" + k, j)
    ensures Typed(typ) && Typed(filter)
    ensures ProtNames(name, typ, filter) == (name + ("-" + k), name + ("-" + f))
  {
    SecondIsKind(typ, k);
    SecondIsKind(filter, f);
    FindIsFirst(name, "-" + k);
  }

  /** So translators whose names differ in what follows the suffix get filters with different names. */
  lemma TailsKeepApart(a: string, b: string, c: string, typ: string, k: string, filter: string, f: string)
    requires Kind(typ, k) && Kind(filter, f) && b != c
    requires FirstAt(a + ("-" + k) + b, "-" + k, |a|) && FirstAt(a + ("-" + k) + c, "-" + k, |a|)
    ensures Typed(typ) && Typed(filter)
    ensures ProtNames(a + ("-" + k) + b, typ, filter).0 != ProtNames(a + ("-" + k) + c, typ, filter).0
    ensures ProtNames(a + ("-" + k) + b, typ, filter).1 != ProtNames(a + ("-" + k) + c, typ, filter).1
  {
    ProtNamesReplace(a, b, typ, k, filter, f);
    ProtNamesReplace(a, c, typ, k, filter, f);
    SameFront(a + ("-" + k), b, c);
    SameFront(a + ("-" + f), b, c);
  }

  lemma SameFront(a: string, b: string, c: string)
    requires b != c
    ensures a + b != a + c
  {
    assert b == (a + b)[|a|..] && c == (a + c)[|a|..];
  }

  /** volfilter, when the name ends with the suffix of its type and is longer: the moved translator keeps
      the name, and the filter gets its own suffix instead. */
  lemma VolNamesReplace(a: string, typ: string, k: string, filter: string, f: string)
    requires Kind(typ, k) && Kind(filter, f) && a != ""
    ensures Typed(typ) && Typed(filter)
    ensures VolNames(a + ("-" + k), typ, filter) == (a + ("-" + k), a + ("-" + f))
  {
    SecondIsKind(typ, k);
    SecondIsKind(filter, f);
    var name := a + ("-" + k);
    assert name[|a|..] == "-" + k && name[..|a|] == a;
  }

  /** volfilter, for any other name: both suffixes are appended. */
  lemma VolNamesAppend(name: string, typ: string, k: string, filter: string, f: string)
    requires Kind(typ, k) && Kind(filter, f) && forall a :: a != "" ==> name != a + ("-" + k)
    ensures Typed(typ) && Typed(filter)
    ensures VolNames(name, typ, filter) == (name + ("-" + k), name + ("-" + f))
  {
    SecondIsKind(typ, k);
    SecondIsKind(filter, f);
    var n := |name| - |"-" + k|;
    if n > 0 {
      assert name == name[..n] + name[n..];
    }
  }
}
