/**
  load undoes generate: reading back the text of a graph gives the same translators, with the
  same names, types, options and subvolumes, and the same top.
 */
module VolfileRoundTrip {
  import opened Wrappers
  import opened Basics
  import opened VolText
  import opened Volfile
  import opened VolfileOrder

  lemma {:induction false} ReadAppend(r: Reading, a: seq<string>, b: seq<string>)
    ensures ReadLines(r, a + b) ==
      match ReadLines(r, a) {
        case Err => Err
        case Ok(r1) => ReadLines(r1, b)
      }
    decreases |b|
  {
    if b == [] {
      assert a + b == a;
    } else {
      var b1 := b[..|b| - 1];
      assert (a + b)[..|a + b| - 1] == a + b1;
      ReadAppend(r, a, b1);
    }
  }

  lemma ReadOne(r: Reading, line: string, text: seq<string>)
    requires Split(line) == text != []
    ensures ReadLines(r, [line]) == ReadWords(r, text)
  {
    assert [line][..0] == [];
    assert ReadLines(r, [line][..0]) == Ok(r);
  }

  lemma Keywords()
    ensures Word("volume") && Word("type") && Word("option") && Word("subvolumes") && Word("end-volume")
    ensures KeywordOf("volume") == KVolume && KeywordOf("type") == KType && KeywordOf("option") == KOption
    ensures KeywordOf("subvolumes") == KSubvolumes && KeywordOf("end-volume") == KEnd
  {
  }

  // ---- the lines of one stanza -------------------------------------------------------

  lemma VolumeLine(r: Reading, name: string)
    requires r.cur.None? && Word(name)
    ensures ReadLines(r, ["volume " + name]) == Ok(r.(cur := Some(Node(name, "", [], []))))
  {
    Keywords();
    assert "volume " + name == "volume" + " " + name;
    SplitFirst("volume", name);
    SplitSingle(name);
    ReadOne(r, "volume " + name, ["volume", name]);
  }

  lemma TypeLine(r: Reading, typ: string)
    requires r.cur.Some? && Word(typ)
    ensures ReadLines(r, [INDENT + "type " + typ]) == Ok(r.(cur := Some(r.cur.value.(typ := typ))))
  {
    Keywords();
    assert INDENT + "type " + typ == INDENT + ("type" + " " + typ);
    SplitIndent("type" + " " + typ);
    SplitFirst("type", typ);
    SplitSingle(typ);
    ReadOne(r, INDENT + "type " + typ, ["type", typ]);
  }

  lemma SplitOption(k: string, v: string)
    requires Word(k)
    ensures Split(OptionText(k, v)) == ["option", k] + Split(v)
  {
    var tail := k + " " + v;
    assert OptionText(k, v) == INDENT + ("option" + " " + tail);
    SplitIndent("option" + " " + tail);
    SplitFirst("option", tail);
    SplitFirst(k, v);
    assert ["option"] + ([k] + Split(v)) == ["option", k] + Split(v);
  }

  lemma OptionLine(r: Reading, k: string, v: string)
    requires r.cur.Some? && Word(k) && Normal(v)
    ensures ReadLines(r, [OptionText(k, v)])
      == Ok(r.(cur := Some(r.cur.value.(opts := Put(r.cur.value.opts, k, v)))))
  {
    Keywords();
    SplitOption(k, v);
    var text := ["option", k] + Split(v);
    ReadOne(r, OptionText(k, v), text);
    assert text[2..] == Split(v);
  }

  lemma {:induction false} PutNew(opts: seq<(string, string)>, k: string, v: string)
    requires forall i :: 0 <= i < |opts| ==> opts[i].0 != k
    ensures Put(opts, k, v) == opts + [(k, v)]
  {
    if opts != [] {
      PutNew(opts[1..], k, v);
    }
  }

  lemma {:induction false} OptionLines(r: Reading, opts: seq<(string, string)>)
    requires r.cur.Some? && r.cur.value.opts == [] && DistinctKeys(opts)
    requires forall i :: 0 <= i < |opts| ==> Word(opts[i].0) && Normal(opts[i].1)
    ensures ReadLines(r, OptLines(opts)) == Ok(r.(cur := Some(r.cur.value.(opts := opts))))
  {
    if opts != [] {
      var init, o := opts[..|opts| - 1], opts[|opts| - 1];
      OptionLines(r, init);
      var r1 := r.(cur := Some(r.cur.value.(opts := init)));
      OptionLine(r1, o.0, o.1);
      PutNew(init, o.0, o.1);
      ReadAppend(r, OptLines(init), [OptionText(o.0, o.1)]);
      assert init + [(o.0, o.1)] == opts;
    }
  }

  /** The positions that the names of all subvolumes have. */
  predicate Resolves(all: map<string, nat>, names: seq<string>, ids: seq<nat>) {
    |ids| == |names| && forall i :: 0 <= i < |names| ==> names[i] in all && all[names[i]] == ids[i]
  }

  lemma {:induction false} LookupResolves(all: map<string, nat>, names: seq<string>, ids: seq<nat>)
    requires Resolves(all, names, ids)
    ensures Lookup(all, names) == Ok(ids)
  {
    if names != [] {
      LookupResolves(all, names[..|names| - 1], ids[..|ids| - 1]);
      assert ids[..|ids| - 1] + [ids[|ids| - 1]] == ids;
    }
  }

  lemma SplitSubvolumes(tail: string)
    ensures Split(INDENT + "subvolumes " + tail) == ["subvolumes"] + Split(tail)
  {
    assert INDENT + "subvolumes " + tail == INDENT + ("subvolumes" + " " + tail);
    SplitIndent("subvolumes" + " " + tail);
    SplitFirst("subvolumes", tail);
  }

  lemma SubvolumesWords(r: Reading, text: seq<string>, names: seq<string>, ids: seq<nat>)
    requires r.cur.Some? && r.cur.value.subs == [] && Resolves(r.all, names, ids)
    requires text != [] && KeywordOf(text[0]) == KSubvolumes && text[1..] == names
    ensures ReadWords(r, text) == Ok(r.(cur := Some(r.cur.value.(subs := ids))))
  {
    LookupResolves(r.all, names, ids);
    assert [] + ids == ids;
  }

  lemma SubvolumesLine(r: Reading, names: seq<string>, ids: seq<nat>)
    requires r.cur.Some? && r.cur.value.subs == [] && Resolves(r.all, names, ids)
    requires forall i :: 0 <= i < |names| ==> Word(names[i])
    ensures ReadLines(r, SubLine(names)) == Ok(r.(cur := Some(r.cur.value.(subs := ids))))
  {
    if names != [] {
      var line, text := INDENT + "subvolumes " + Join(names), ["subvolumes"] + names;
      SplitSubvolumes(Join(names));
      SplitOfJoin(names);
      SubvolumesWords(r, text, names, ids);
      ReadOne(r, line, text);
    }
  }

  lemma EndLine(r: Reading)
    requires r.cur.Some?
    ensures ReadLines(r, ["end-volume"])
      == Ok(Reading(r.nodes + [r.cur.value], r.all[r.cur.value.name := |r.nodes|], None))
  {
    Keywords();
    SplitSingle("end-volume");
    ReadOne(r, "end-volume", ["end-volume"]);
  }

  /** Reading one stanza adds one translator, wired to those its subvolumes name. */
  lemma StanzaLoads<X>(r: Reading, n: Node<X>, names: seq<string>, ids: seq<nat>)
    requires r.cur.None? && Printable(n) && Resolves(r.all, names, ids)
    requires forall i :: 0 <= i < |names| ==> Word(names[i])
    ensures ReadLines(r, Stanza(n, names))
      == Ok(Reading(r.nodes + [Node(n.name, n.typ, n.opts, ids)], r.all[n.name := |r.nodes|], None))
  {
    var l1, l2 := ["volume " + n.name], [INDENT + "type " + n.typ];
    var r1 := r.(cur := Some(Node(n.name, "", [], [])));
    var r2 := r1.(cur := Some(Node(n.name, n.typ, [], [])));
    var r3 := r1.(cur := Some(Node(n.name, n.typ, n.opts, [])));
    var r4 := r1.(cur := Some(Node(n.name, n.typ, n.opts, ids)));
    VolumeLine(r, n.name);
    TypeLine(r1, n.typ);
    OptionLines(r2, n.opts);
    SubvolumesLine(r3, names, ids);
    EndLine(r4);
    ReadAppend(r, l1, l2);
    ReadAppend(r, l1 + l2, OptLines(n.opts));
    ReadAppend(r, l1 + l2 + OptLines(n.opts), SubLine(names));
    ReadAppend(r, l1 + l2 + OptLines(n.opts) + SubLine(names), ["end-volume"]);
  }

  lemma BlankLine(r: Reading)
    ensures ReadLines(r, [""]) == Ok(r)
  {
    assert [""][..0] == [];
    assert ReadLines(r, [""][..0]) == Ok(r);
  }

  // ---- the whole text ----------------------------------------------------------------

  /** Names are words and pairwise distinct. */
  ghost predicate DistinctNames<X>(g: map<X, Node<X>>) {
    && (forall x :: x in g ==> Word(g[x].name))
    && (forall x, y :: x in g && y in g && g[x].name == g[y].name ==> x == y)
  }

  /** Printable translators with pairwise distinct names. */
  ghost predicate WellNamed<X>(g: map<X, Node<X>>) {
    DistinctNames(g) && forall x :: x in g ==> Printable(g[x])
  }

  /** The same of the translators that are printed only. */
  ghost predicate WellNamedIn<X>(g: map<X, Node<X>>, order: seq<X>) {
    DistinctNames(g) && forall k :: 0 <= k < |order| ==> order[k] in g && Printable(g[order[k]])
  }

  /** What load should make of `order`: translator k is the k-th of `order`, and its subvolumes
      are the positions of its subvolumes. */
  ghost predicate Mirrors<X>(g: map<X, Node<X>>, order: seq<X>, nodes: seq<Node<nat>>) {
    && |nodes| == |order|
    && (forall k :: 0 <= k < |order| ==> order[k] in g && SameNode(g[order[k]], order, nodes[k]))
  }

  predicate SameNode<X(==)>(n: Node<X>, order: seq<X>, m: Node<nat>) {
    && m.name == n.name && m.typ == n.typ && m.opts == n.opts && |m.subs| == |n.subs|
    && (forall j :: 0 <= j < |n.subs| ==> m.subs[j] < |order| && order[m.subs[j]] == n.subs[j])
  }

  /** The dictionary of load maps each name to the translator of that name. */
  ghost predicate Indexed<X>(g: map<X, Node<X>>, order: seq<X>, all: map<string, nat>) {
    && (forall k :: 0 <= k < |order| ==> order[k] in g && g[order[k]].name in all && all[g[order[k]].name] == k)
    && (forall s :: s in all ==> all[s] < |order| && order[all[s]] in g && g[order[all[s]]].name == s)
  }

  lemma SubIds<X>(g: map<X, Node<X>>, order: seq<X>, all: map<string, nat>, x: X) returns (ids: seq<nat>)
    requires Closed(g) && x in g && Indexed(g, order, all) && SubsIn(g[x], Elems(order))
    ensures Resolves(all, NamesOf(g, g[x].subs), ids)
    ensures |ids| == |g[x].subs| && forall j :: 0 <= j < |ids| ==> ids[j] < |order| && order[ids[j]] == g[x].subs[j]
  {
    ids := [];
    var subs := g[x].subs;
    while |ids| < |subs|
      invariant |ids| <= |subs|
      invariant forall j :: 0 <= j < |ids| ==> ids[j] < |order| && order[ids[j]] == subs[j]
      invariant forall j :: 0 <= j < |ids| ==> g[subs[j]].name in all && all[g[subs[j]].name] == ids[j]
    {
      assert subs[|ids|] in Elems(order);
      var k :| 0 <= k < |order| && order[k] == subs[|ids|];
      ids := ids + [k];
    }
  }

  lemma OrderedPrefix<X>(g: map<X, Node<X>>, init: seq<X>, x: X)
    requires Ordered(g, init + [x], {}) && NoDup(init + [x])
    ensures Ordered(g, init, {}) && NoDup(init) && x in g && SubsIn(g[x], Elems(init))
  {
    var order := init + [x];
    forall k | 0 <= k < |init| ensures init[k] in g && SubsIn(g[init[k]], {} + Elems(init[..k])) {
      assert init[..k] == order[..k] && order[k] == init[k];
    }
    assert order[|init|] == x && order[..|init|] == init;
    assert SubsIn(g[x], {} + Elems(init));
    assert {} + Elems(init) == Elems(init);
    forall i, j | 0 <= i < j < |init| ensures init[i] != init[j] {
      assert order[i] == init[i] && order[j] == init[j];
    }
  }

  lemma ReadText<X>(g: map<X, Node<X>>, init: seq<X>, x: X, r0: Reading, r: Reading)
    requires Closed(g) && x in g && forall i :: 0 <= i < |init| ==> init[i] in g
    requires ReadLines(NOTHING_READ, Text(g, init)) == Ok(r0)
    requires ReadLines(r0, StanzaOf(g, x)) == Ok(r)
    ensures ReadLines(NOTHING_READ, Text(g, init) + StanzaOf(g, x)) == Ok(r)
    ensures ReadLines(NOTHING_READ, Text(g, init + [x])) == Ok(r)
  {
    var t, s := Text(g, init), StanzaOf(g, x);
    TextLast(g, init, x);
    ReadAppend(NOTHING_READ, t, s);
    ReadAppend(r0, s, [""]);
    ReadAppend(NOTHING_READ, t, s + [""]);
    BlankLine(r);
  }

  lemma {:induction false} TextLoads<X>(g: map<X, Node<X>>, order: seq<X>) returns (r: Reading)
    requires Closed(g) && WellNamedIn(g, order) && NoDup(order) && Ordered(g, order, {})
    ensures ReadLines(NOTHING_READ, Text(g, order)) == Ok(r)
    ensures r.cur.None? && Mirrors(g, order, r.nodes) && Indexed(g, order, r.all)
    decreases |order|
  {
    if order == [] {
      r := NOTHING_READ;
    } else {
      var init, x := order[..|order| - 1], order[|order| - 1];
      assert init + [x] == order;
      OrderedPrefix(g, init, x);
      PrintedFirst(g, init, x);
      var r0 := TextLoads(g, init);
      r := LastLoads(g, init, x, r0);
      ReadText(g, init, x, r0, r);
    }
  }

  lemma LastMirrors<X>(g: map<X, Node<X>>, init: seq<X>, x: X, r0: Reading, ids: seq<nat>)
    requires DistinctNames(g) && NoDup(init + [x]) && x in g
    requires Mirrors(g, init, r0.nodes) && Indexed(g, init, r0.all)
    requires |ids| == |g[x].subs| && forall j :: 0 <= j < |ids| ==> ids[j] < |init| && init[ids[j]] == g[x].subs[j]
    ensures Mirrors(g, init + [x], r0.nodes + [Node(g[x].name, g[x].typ, g[x].opts, ids)])
    ensures Indexed(g, init + [x], r0.all[g[x].name := |r0.nodes|])
  {
    var order := init + [x];
    var nodes := r0.nodes + [Node(g[x].name, g[x].typ, g[x].opts, ids)];
    forall k | 0 <= k < |order| ensures order[k] in g && SameNode(g[order[k]], order, nodes[k]) {
      if k < |init| {
        assert SameNode(g[init[k]], init, r0.nodes[k]);
      }
    }
    forall k | 0 <= k < |init| ensures g[init[k]].name != g[x].name {
      assert init[k] == order[k] && order[|init|] == x;
    }
  }

  lemma LastLoads<X>(g: map<X, Node<X>>, init: seq<X>, x: X, r0: Reading) returns (r: Reading)
    requires Closed(g) && DistinctNames(g) && x in g && Printable(g[x])
    requires NoDup(init + [x]) && SubsIn(g[x], Elems(init))
    requires r0.cur.None? && Mirrors(g, init, r0.nodes) && Indexed(g, init, r0.all)
    ensures ReadLines(r0, StanzaOf(g, x)) == Ok(r)
    ensures r.cur.None? && Mirrors(g, init + [x], r.nodes) && Indexed(g, init + [x], r.all)
  {
    var ids := SubIds(g, init, r0.all, x);
    var names := NamesOf(g, g[x].subs);
    forall i | 0 <= i < |names| ensures Word(names[i]) {
      assert g[x].subs[i] in g;
    }
    StanzaLoads(r0, g[x], names, ids);
    LastMirrors(g, init, x, r0, ids);
    r := Reading(r0.nodes + [Node(g[x].name, g[x].typ, g[x].opts, ids)], r0.all[g[x].name := |r0.nodes|], None);
  }

  /** What generate prints for a whole graph. */
  ghost function Generated<X>(g: map<X, Node<X>>, rank: map<X, nat>, top: X): seq<string>
    requires Ranked(g, rank) && Closed(g) && top in g
  {
    EmitSubsGood(g, rank, top, |g[top].subs|, {});
    Text(g, EmitSubs(g, rank, top, |g[top].subs|, {})) + StanzaOf(g, top)
  }

  /** load(generate(graph)) is the part of the graph reachable from its top, up to the
      numbering of the translators by `order`; the last translator read is the top. */
  lemma LoadUndoesGenerate<X>(g: map<X, Node<X>>, rank: map<X, nat>, top: X) returns (r: Reading)
    requires Ranked(g, rank) && Closed(g) && WellNamed(g) && top in g
    ensures Load(Generated(g, rank, top)) == Ok(r)
    ensures var order := Emit(g, rank, top, {});
      Mirrors(g, order, r.nodes) && Indexed(g, order, r.all) && order[|r.nodes| - 1] == top
  {
    GenerateOrder(g, rank, top);
    r := ReloadPrinted(g, rank, top);
  }

  /** The same when only the translators that are printed need be printable. */
  lemma ReloadPrinted<X>(g: map<X, Node<X>>, rank: map<X, nat>, top: X) returns (r: Reading)
    requires Ranked(g, rank) && Closed(g) && top in g && WellNamedIn(g, Emit(g, rank, top, {}))
    ensures Load(Generated(g, rank, top)) == Ok(r)
    ensures var order := Emit(g, rank, top, {});
      Mirrors(g, order, r.nodes) && Indexed(g, order, r.all) && |r.nodes| > 0 && order[|r.nodes| - 1] == top
  {
    var init := EmitSubs(g, rank, top, |g[top].subs|, {});
    GenerateOrder(g, rank, top);
    assert Emit(g, rank, top, {}) == init + [top];
    OrderedPrefix(g, init, top);
    PrintedFirst(g, init, top);
    var r0 := TextLoads(g, init);
    r := LastLoads(g, init, top, r0);
    ReadText(g, init, top, r0, r);
  }

  lemma PrintedFirst<X>(g: map<X, Node<X>>, init: seq<X>, x: X)
    requires WellNamedIn(g, init + [x])
    ensures WellNamedIn(g, init) && x in g && Printable(g[x])
  {
    var order := init + [x];
    assert order[|init|] == x && forall k :: 0 <= k < |init| ==> init[k] == order[k];
  }

  // ---- what load accepts -------------------------------------------------------------

  /** Subvolumes are always defined earlier in the file. */
  predicate Backward(nodes: seq<Node<nat>>) {
    forall k :: 0 <= k < |nodes| ==> Before(nodes[k], k)
  }

  predicate Before(n: Node<nat>, k: nat) {
    forall i :: 0 <= i < |n.subs| ==> n.subs[i] < k
  }

  predicate Sound(r: Reading) {
    && Backward(r.nodes)
    && (forall s :: s in r.all ==> r.all[s] < |r.nodes|)
    && (r.cur.Some? ==> Before(r.cur.value, |r.nodes|))
  }

  lemma {:induction false} LookupBounded(all: map<string, nat>, names: seq<string>, n: nat)
    requires forall s :: s in all ==> all[s] < n
    ensures Lookup(all, names).Ok? ==>
      forall i :: 0 <= i < |Lookup(all, names).value| ==> Lookup(all, names).value[i] < n
  {
    if names != [] {
      LookupBounded(all, names[..|names| - 1], n);
    }
  }

  lemma {:induction false} ReadSound(r: Reading, lines: seq<string>)
    requires Sound(r) && ReadLines(r, lines).Ok?
    ensures Sound(ReadLines(r, lines).value)
  {
    if lines != [] {
      ReadSound(r, lines[..|lines| - 1]);
      var r1 := ReadLines(r, lines[..|lines| - 1]).value;
      var text := Split(lines[|lines| - 1]);
      if text != [] {
        LookupBounded(r1.all, text[1..], |r1.nodes|);
      }
    }
  }

  /** Whatever load returns is an acyclic graph, so generate can always print it. */
  lemma LoadedIsAcyclic(lines: seq<string>) returns (g: map<nat, Node<nat>>, rank: map<nat, nat>)
    requires Load(lines).Ok?
    ensures forall k :: k in g <==> 0 <= k < |Load(lines).value.nodes|
    ensures forall k :: k in g ==> g[k] == Load(lines).value.nodes[k]
    ensures Ranked(g, rank) && Closed(g)
  {
    ReadSound(NOTHING_READ, lines);
    var nodes := Load(lines).value.nodes;
    g := map k | 0 <= k < |nodes| :: nodes[k];
    rank := map k | k in g :: k;
    forall x | x in g ensures x in rank && forall i :: 0 <= i < |g[x].subs| ==> Below(g, rank, g[x].subs[i], x) {
      assert Before(nodes[x], x);
    }
    forall x | x in g ensures forall i :: 0 <= i < |g[x].subs| ==> g[x].subs[i] in g {
      assert Before(nodes[x], x);
    }
  }
}
