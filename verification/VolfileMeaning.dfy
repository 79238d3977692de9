/**
  What the lines of a stanza mean: the last type line and the last option line for a key count, and the
  subvolumes of all subvolumes lines are put together.
 */
module VolfileMeaning {
  import opened Wrappers
  import opened VolText
  import opened Volfile
  import opened VolfileRoundTrip
  import opened VolfileGrammar

  predicate IsType(text: seq<string>) {
    |text| >= 2 && text[0] == "type"
  }

  predicate IsOption(text: seq<string>, key: string) {
    |text| >= 2 && text[0] == "option" && text[1] == key
  }

  predicate IsSubvolumes(text: seq<string>) {
    text != [] && text[0] == "subvolumes"
  }

  /** The type is that of the last type line, and empty if there is none. */
  ghost predicate TypeIs(texts: seq<seq<string>>, typ: string) {
    || (typ == "" && forall i :: 0 <= i < |texts| ==> !IsType(texts[i]))
    || exists i :: 0 <= i < |texts| && TypeFrom(texts, typ, i)
  }

  predicate TypeFrom(texts: seq<seq<string>>, typ: string, i: nat)
    requires i < |texts|
  {
    IsType(texts[i]) && typ == texts[i][1] && forall j :: i < j < |texts| ==> !IsType(texts[j])
  }

  /** An option has the value of the last option line for its key. */
  ghost predicate OptionIs(texts: seq<seq<string>>, key: string, value: Option<string>) {
    || (value == None && forall i :: 0 <= i < |texts| ==> !IsOption(texts[i], key))
    || exists i :: 0 <= i < |texts| && OptionFrom(texts, key, value, i)
  }

  predicate OptionFrom(texts: seq<seq<string>>, key: string, value: Option<string>, i: nat)
    requires i < |texts|
  {
    && IsOption(texts[i], key) && value == Some(Join(texts[i][2..]))
    && forall j :: i < j < |texts| ==> !IsOption(texts[j], key)
  }

  /** The names on all subvolumes lines. */
  function SubNames(texts: seq<seq<string>>): seq<string> {
    if texts == [] then []
    else SubNames(texts[..|texts| - 1]) + if IsSubvolumes(texts[|texts| - 1]) then texts[|texts| - 1][1..] else []
  }

  /** opts[key] */
  function Get(opts: seq<(string, string)>, key: string): Option<string> {
    if opts == [] then None else if opts[0].0 == key then Some(opts[0].1) else Get(opts[1..], key)
  }

  /** Setting an option sets that one only. */
  lemma {:induction false} PutSets(opts: seq<(string, string)>, k: string, v: string, key: string)
    ensures Get(Put(opts, k, v), key) == if key == k then Some(v) else Get(opts, key)
  {
    if opts != [] && opts[0].0 != k {
      PutSets(opts[1..], k, v, key);
      assert ([opts[0]] + Put(opts[1..], k, v))[1..] == Put(opts[1..], k, v);
    }
  }

  lemma {:induction false} LookedUp(all: map<string, nat>, names: seq<string>)
    requires Lookup(all, names).Ok?
    ensures Resolves(all, names, Lookup(all, names).value)
  {
    if names != [] {
      LookedUp(all, names[..|names| - 1]);
    }
  }

  lemma ResolvesBoth(all: map<string, nat>, a: seq<string>, b: seq<string>, i: seq<nat>, j: seq<nat>)
    requires Resolves(all, a, i) && Resolves(all, b, j)
    ensures Resolves(all, a + b, i + j)
  {
  }

  /** The node that the inner lines `texts` make of the volume `name`, when `all` has been defined. */
  ghost predicate Means(texts: seq<seq<string>>, name: string, all: map<string, nat>, n: Node<nat>) {
    && n.name == name && TypeIs(texts, n.typ) && (forall key :: OptionIs(texts, key, Get(n.opts, key)))
    && Resolves(all, SubNames(texts), n.subs)
  }

  lemma TypeMore(texts: seq<seq<string>>, t: seq<string>, typ: string)
    requires TypeIs(texts, typ)
    ensures TypeIs(texts + [t], if IsType(t) then t[1] else typ)
  {
    var all := texts + [t];
    if IsType(t) {
      assert all[|texts|] == t && TypeFrom(all, t[1], |texts|);
    } else if i :| 0 <= i < |texts| && TypeFrom(texts, typ, i) {
      assert TypeFrom(all, typ, i);
    }
  }

  lemma OptionMore(texts: seq<seq<string>>, t: seq<string>, key: string, value: Option<string>)
    requires OptionIs(texts, key, value)
    ensures OptionIs(texts + [t], key, if IsOption(t, key) then Some(Join(t[2..])) else value)
  {
    var all := texts + [t];
    if IsOption(t, key) {
      assert all[|texts|] == t && OptionFrom(all, key, Some(Join(t[2..])), |texts|);
    } else if i :| 0 <= i < |texts| && OptionFrom(texts, key, value, i) {
      assert OptionFrom(all, key, value, i);
    }
  }

  /** One more line. */
  lemma MeansMore(texts: seq<seq<string>>, r: Reading, t: seq<string>, name: string)
    requires r.cur.Some? && Means(texts, name, r.all, r.cur.value) && t != [] && Inner(t, r.all.Keys)
    ensures ReadWords(r, t).Ok?
    ensures var r' := ReadWords(r, t).value;
      r' == r.(cur := r'.cur) && r'.cur.Some? && Means(texts + [t], name, r.all, r'.cur.value)
  {
    LineInside(r, t);
    LineMeans(r, t);
    var n, n' := r.cur.value, ReadWords(r, t).value.cur.value;
    TypeMore(texts, t, n.typ);
    forall key ensures OptionIs(texts + [t], key, Get(n'.opts, key)) {
      OptionMore(texts, t, key, Get(n.opts, key));
      assert Get(n'.opts, key) == if IsOption(t, key) then Some(Join(t[2..])) else Get(n.opts, key);
    }
    SubNamesMore(texts, t);
    if IsSubvolumes(t) {
      ResolvesBoth(r.all, SubNames(texts), t[1..], n.subs, n'.subs[|n.subs|..]);
      assert n'.subs == n.subs + n'.subs[|n.subs|..];
    }
  }

  lemma SubNamesMore(texts: seq<seq<string>>, t: seq<string>)
    ensures SubNames(texts + [t]) == SubNames(texts) + if IsSubvolumes(t) then t[1..] else []
  {
    assert (texts + [t])[..|texts|] == texts;
  }

  /** What one inner line does to the open translator. */
  lemma LineMeans(r: Reading, t: seq<string>)
    requires r.cur.Some? && t != [] && Inner(t, r.all.Keys) && ReadWords(r, t).Ok?
    ensures var r' := ReadWords(r, t).value; r'.cur.Some? && r' == r.(cur := r'.cur)
    ensures var n, n' := r.cur.value, ReadWords(r, t).value.cur.value;
      && n'.name == n.name
      && n'.typ == (if IsType(t) then t[1] else n.typ)
      && (forall key :: Get(n'.opts, key) == if IsOption(t, key) then Some(Join(t[2..])) else Get(n.opts, key))
      && if IsSubvolumes(t)
         then n.subs <= n'.subs && Resolves(r.all, t[1..], n'.subs[|n.subs|..])
         else n'.subs == n.subs
  {
    Keywords();
    SubvolumesSucceed(r.all, t);
    if IsSubvolumes(t) {
      LookedUp(r.all, t[1..]);
      var n, ids := r.cur.value, Lookup(r.all, t[1..]).value;
      assert (n.subs + ids)[|n.subs|..] == ids;
    } else if KeywordOf(t[0]).KOption? {
      forall key {
        PutSets(r.cur.value.opts, t[1], Join(t[2..]), key);
      }
    }
  }

  lemma BlankMeans(texts: seq<seq<string>>, name: string, all: map<string, nat>, n: Node<nat>)
    requires Means(texts, name, all, n)
    ensures Means(texts + [[]], name, all, n)
  {
    TypeMore(texts, [], n.typ);
    forall key ensures OptionIs(texts + [[]], key, Get(n.opts, key)) {
      OptionMore(texts, [], key, Get(n.opts, key));
    }
    SubNamesMore(texts, []);
  }

  /** Reading inner lines. */
  lemma {:induction false} InnerMeans(r: Reading, name: string, lines: seq<string>)
    requires r.cur == Some(Node(name, "", [], []))
    requires forall i :: 0 <= i < |lines| ==> Inner(Split(lines[i]), r.all.Keys)
    ensures ReadLines(r, lines).Ok?
    ensures var r' := ReadLines(r, lines).value;
      r' == r.(cur := r'.cur) && r'.cur.Some? && Means(Splits(lines), name, r.all, r'.cur.value)
  {
    var texts := Splits(lines);
    if lines != [] {
      var init, t := lines[..|lines| - 1], Split(lines[|lines| - 1]);
      InnerMeans(r, name, init);
      assert texts == Splits(init) + [t];
      if t == [] {
        BlankMeans(Splits(init), name, r.all, ReadLines(r, init).value.cur.value);
      } else {
        MeansMore(Splits(init), ReadLines(r, init).value, t, name);
      }
    }
  }

  /** Reading a whole stanza adds the node that its lines mean. */
  lemma StanzaMeans(r: Reading, first: string, inner: seq<string>, last: string)
    requires r.cur.None? && Opening(Split(first)) && Ending(Split(last))
    requires forall i :: 0 <= i < |inner| ==> Inner(Split(inner[i]), r.all.Keys)
    ensures ReadLines(r, [first] + inner + [last]).Ok?
    ensures var r', name := ReadLines(r, [first] + inner + [last]).value, Split(first)[1];
      && |r'.nodes| == |r.nodes| + 1 && r'.nodes[..|r.nodes|] == r.nodes && r'.cur.None?
      && r'.all == r.all[name := |r.nodes|]
      && Means(Splits(inner), name, r.all, r'.nodes[|r.nodes|])
  {
    var lines := [first] + inner + [last];
    var r1 := ReadWords(r, Split(first)).value;
    LineOutside(r, Split(first));
    ReadOne(r, first, Split(first));
    InnerMeans(r1, Split(first)[1], inner);
    var r2 := ReadLines(r1, inner).value;
    LineInside(r2, Split(last));
    ReadOne(r2, last, Split(last));
    ReadAppend(r, [first], inner);
    ReadAppend(r, [first] + inner, [last]);
    EndMeans(r2, Split(last));
  }

  lemma EndMeans(r: Reading, t: seq<string>)
    requires r.cur.Some? && Ending(t)
    ensures ReadWords(r, t) == Ok(Reading(r.nodes + [r.cur.value], r.all[r.cur.value.name := |r.nodes|], None))
  {
    Keywords();
  }
}
