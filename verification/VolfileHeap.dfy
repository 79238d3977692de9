/**
  The volfile tools on Translator objects: generate walks the objects and sets their dumped
  flags, load creates them.
 */
module VolfileHeap {
  import opened VolText
  import opened Volfile
  import opened VolfileOrder

  class Translator {
    var name: string
    var typ: string
    var opts: seq<(string, string)>
    var subvols: seq<Translator>
    var dumped: bool

    constructor (name: string)
      ensures this.name == name && typ == "" && opts == [] && subvols == [] && !dumped
    {
      this.name := name;
      typ, opts, subvols, dumped := "", [], [], false;
    }

    function View(): Node<Translator>
      reads this
    {
      Node(name, typ, opts, subvols)
    }
  }

  /** The objects of `g` have the fields that `g` says. */
  ghost predicate Shows(g: map<Translator, Node<Translator>>)
    reads g.Keys
  {
    forall x :: x in g ==> x.View() == g[x]
  }

  ghost function Dumped(g: map<Translator, Node<Translator>>): set<Translator>
    reads g.Keys
  {
    set x | x in g && x.dumped
  }

  // ---- generate ----------------------------------------------------------------------

  method PrintStanza(xl: Translator, names: seq<string>, stream: seq<string>) returns (out: seq<string>)
    requires |names| == |xl.subvols|
    ensures out == stream + Stanza(xl.View(), names)
  {
    out := stream + ["volume " + xl.name];
    out := out + [INDENT + "type " + xl.typ];
    ghost var head := ["volume " + xl.name] + [INDENT + "type " + xl.typ];
    for i := 0 to |xl.opts|
      invariant out == stream + (head + OptLines(xl.opts[..i]))
    {
      var (k, v) := xl.opts[i];
      out := out + [OptionText(k, v)];
      assert xl.opts[..i + 1][..i] == xl.opts[..i];
    }
    assert xl.opts[..|xl.opts|] == xl.opts;
    if |xl.subvols| > 0 {
      out := out + [INDENT + "subvolumes " + Join(names)];
    }
    out := out + ["end-volume"];
  }

  method SubvolNames(ghost g: map<Translator, Node<Translator>>, xl: Translator) returns (names: seq<string>)
    requires Closed(g) && xl in g && Shows(g)
    ensures names == NamesOf(g, g[xl].subs)
  {
    names := [];
    assert xl.View() == g[xl];
    for i := 0 to |xl.subvols|
      invariant |names| == i && forall j :: 0 <= j < i ==> names[j] == g[xl.subvols[j]].name
    {
      assert xl.subvols[i] in g;
      names := names + [xl.subvols[i].name];
    }
  }

  /** The first `i` subvolumes of `last` are printed, and exactly what was printed is flagged. */
  ghost predicate Printed(g: map<Translator, Node<Translator>>, rank: map<Translator, nat>, last: Translator, i: nat,
                          d0: set<Translator>, stream: seq<string>, out: seq<string>)
    requires Ranked(g, rank) && Closed(g) && last in g && i <= |g[last].subs|
    reads g.Keys
  {
    var order := EmitSubs(g, rank, last, i, d0);
    && (forall k :: 0 <= k < |order| ==> order[k] in g)
    && out == stream + Text(g, order)
    && Dumped(g) == d0 + Elems(order)
  }

  /** generate(graph, last, stream): prints what the order says, and leaves exactly the
      translators it printed, except `last` itself, with their dumped flag newly set. */
  method Generate(ghost g: map<Translator, Node<Translator>>, ghost rank: map<Translator, nat>,
                  last: Translator, stream: seq<string>) returns (out: seq<string>)
    requires Ranked(g, rank) && Closed(g) && last in g && Shows(g)
    modifies g.Keys`dumped
    ensures var order := EmitSubs(g, rank, last, |g[last].subs|, old(Dumped(g)));
      && (forall k :: 0 <= k < |order| ==> order[k] in g)
      && out == stream + Text(g, order) + StanzaOf(g, last)
      && Dumped(g) == old(Dumped(g)) + Elems(order)
    decreases rank[last], 1
  {
    ghost var d0 := Dumped(g);
    assert last.View() == g[last];
    out := stream;
    for i := 0 to |last.subvols|
      invariant Shows(g) && last.subvols == g[last].subs
      invariant Printed(g, rank, last, i, d0, stream, out)
    {
      out := GenerateSub(g, rank, last, i, d0, stream, out);
    }
    var names := SubvolNames(g, last);
    assert last.View() == g[last];
    out := PrintStanza(last, names, out);
  }

  /** One turn of the loop in generate. */
  method GenerateSub(ghost g: map<Translator, Node<Translator>>, ghost rank: map<Translator, nat>, last: Translator,
                     i: nat, ghost d0: set<Translator>, ghost stream: seq<string>, sofar: seq<string>)
    returns (out: seq<string>)
    requires Ranked(g, rank) && Closed(g) && last in g && Shows(g) && i < |g[last].subs|
    requires Printed(g, rank, last, i, d0, stream, sofar)
    modifies g.Keys`dumped
    ensures Printed(g, rank, last, i + 1, d0, stream, out)
    decreases rank[last], 0
  {
    assert last.View() == g[last];
    var sv := last.subvols[i];
    assert Below(g, rank, sv, last);
    ghost var d1 := Dumped(g);
    out := sofar;
    if !sv.dumped {
      assert sv !in d1;
      out := Generate(g, rank, sv, out);
      out := out + [""];
      Flag(g, sv);
      GenerateStep(g, rank, last, i, d0, stream);
    } else {
      assert sv in d1;
    }
  }

  method Flag(ghost g: map<Translator, Node<Translator>>, sv: Translator)
    requires sv in g
    modifies sv`dumped
    ensures Dumped(g) == old(Dumped(g)) + {sv}
  {
    sv.dumped := true;
  }

  /** The text and the flags after one subvolume and its blank line. */
  lemma GenerateStep(g: map<Translator, Node<Translator>>, rank: map<Translator, nat>, last: Translator, i: nat,
                     d0: set<Translator>, stream: seq<string>)
    requires Ranked(g, rank) && Closed(g) && last in g && i < |g[last].subs|
    requires forall k :: 0 <= k < |EmitSubs(g, rank, last, i, d0)| ==> EmitSubs(g, rank, last, i, d0)[k] in g
    requires g[last].subs[i] !in d0 + Elems(EmitSubs(g, rank, last, i, d0))
    ensures var sv := g[last].subs[i];
      var before, after := EmitSubs(g, rank, last, i, d0), EmitSubs(g, rank, last, i + 1, d0);
      Below(g, rank, sv, last) &&
      var d1 := d0 + Elems(before);
      var inner := EmitSubs(g, rank, sv, |g[sv].subs|, d1);
      && (forall k :: 0 <= k < |inner| ==> inner[k] in g) && (forall k :: 0 <= k < |after| ==> after[k] in g)
      && stream + Text(g, before) + Text(g, inner) + StanzaOf(g, sv) + [""] == stream + Text(g, after)
      && d0 + Elems(after) == d1 + Elems(inner) + {sv}
  {
    var sv := g[last].subs[i];
    assert Below(g, rank, sv, last);
    var before := EmitSubs(g, rank, last, i, d0);
    var d1 := d0 + Elems(before);
    var inner := EmitSubs(g, rank, sv, |g[sv].subs|, d1);
    EmitSubsGood(g, rank, sv, |g[sv].subs|, d1);
    assert Emit(g, rank, sv, d1) == inner + [sv];
    assert EmitSubs(g, rank, last, i + 1, d0) == before + (inner + [sv]);
    TextAppend(g, before, inner + [sv]);
    TextLast(g, inner, sv);
    Regroup(stream, Text(g, before), Text(g, inner), StanzaOf(g, sv), [""]);
    ElemsSplit(before, inner + [sv]);
    ElemsSplit(inner, [sv]);
    ElemsOne(sv);
  }

  lemma ElemsOne<X>(x: X)
    ensures Elems([x]) == {x}
  {
    assert [x][0] == x;
  }

  lemma Regroup<T>(a: seq<T>, b: seq<T>, c: seq<T>, d: seq<T>, e: seq<T>)
    ensures a + b + c + d + e == a + (b + (c + (d + e)))
  {
  }
}
