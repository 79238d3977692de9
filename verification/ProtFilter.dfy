/**
  The two passes of prot_filter.py over a snapshot of graph.values(). Python does not say in which
  order the values come, and a push overwrites dictionary entries, so the dictionary after a pass
  depends on the order.
 */
module ProtFilter {
  import opened Basics
  import opened Wrappers
  import opened Volfile
  import opened VolfileHeap
  import opened PushFilter
  import opened FilterNames

  // ---- the dictionary after a pass, by order -----------------------------------------

  /** The names of the moved translator and of the filter. */
  datatype Names = Names(moved: string, filter: string)

  /** What an entry refers to: a translator of the graph, or the new one below its filter. */
  datatype Holder<X> = Self(v: X) | Below(v: X)

  function Start<X>(graph: map<string, X>): map<string, Holder<X>> {
    map k | k in graph :: Self(graph[k])
  }

  /** The entries once `v` has been visited; `names` has the translators that the pass filters. */
  function Visit<X(==)>(names: map<X, Names>, d: map<string, Holder<X>>, v: X): map<string, Holder<X>> {
    if v !in names then d else d[names[v].moved := Below(v)][names[v].filter := Self(v)]
  }

  /** The entries once the translators of `s` have been visited in this order. */
  function After<X(==)>(names: map<X, Names>, graph: map<string, X>, s: seq<X>): map<string, Holder<X>> {
    if s == [] then Start(graph) else Visit(names, After(names, graph, s[..|s| - 1]), s[|s| - 1])
  }

  /** `s` is an order of `all`. */
  ghost predicate Order<X>(s: seq<X>, all: set<X>) {
    NoDup(s) && (forall v :: v in s ==> v in all) && (forall v :: v in all ==> v in s)
  }

  /** Any set can be put in an order. */
  lemma {:induction false} SomeOrder<X>(all: set<X>) returns (s: seq<X>)
    ensures Order(s, all)
  {
    if all == {} {
      s := [];
    } else {
      var v :| v in all;
      var rest := SomeOrder(all - {v});
      s := [v] + rest;
    }
  }

  /** After a pass in the order `s` the dictionary still lists `v`. */
  predicate StaysListed<X(==)>(names: map<X, Names>, graph: map<string, X>, s: seq<X>, v: X) {
    Self(v) in After(names, graph, s).Values
  }

  // ---- who is listed whatever the order ----------------------------------------------

  predicate Writes<X(==)>(names: map<X, Names>, v: X, k: string) {
    v in names && (k == names[v].moved || k == names[v].filter)
  }

  /** Under `k` there is an entry for `v` that no other translator writes: the one its filter gets, or
      one that `v` has already and that its own push does not take away. */
  predicate OwnEntry<X(==)>(names: map<X, Names>, graph: map<string, X>, v: X, k: string) {
    && (forall w :: w in graph.Values && w != v ==> !Writes(names, w, k))
    && if Writes(names, v, k) then k == names[v].filter else k in graph && graph[k] == v
  }

  lemma {:induction false} OwnEntryStays<X>(names: map<X, Names>, graph: map<string, X>, s: seq<X>, v: X, k: string)
    requires OwnEntry(names, graph, v, k) && (forall w :: w in s ==> w in graph.Values)
    requires v in s || !Writes(names, v, k)
    ensures k in After(names, graph, s) && After(names, graph, s)[k] == Self(v)
  {
    if s != [] {
      var n := |s| - 1;
      assert s[n] in s;
      if s[n] != v || !Writes(names, v, k) {
        OwnEntryStays(names, graph, s[..n], v, k);
      }
    }
  }

  /** An entry that nobody has written is as it was. */
  lemma {:induction false} Unwritten<X>(names: map<X, Names>, graph: map<string, X>, s: seq<X>, k: string)
    requires k in After(names, graph, s) && (forall w :: w in s ==> !Writes(names, w, k))
    ensures k in graph && After(names, graph, s)[k] == Self(graph[k])
  {
    if s != [] {
      assert s[|s| - 1] in s;
      Unwritten(names, graph, s[..|s| - 1], k);
    }
  }

  /** An entry that has been written refers to the last translator that wrote it. */
  lemma {:induction false} LastWriter<X>(names: map<X, Names>, graph: map<string, X>, s: seq<X>, k: string, i: nat)
    returns (j: nat)
    requires i < |s| && Writes(names, s[i], k)
    ensures i <= j < |s| && Writes(names, s[j], k) && k in After(names, graph, s)
    ensures After(names, graph, s)[k] == if k == names[s[j]].filter then Self(s[j]) else Below(s[j])
  {
    var n := |s| - 1;
    if Writes(names, s[n], k) {
      j := n;
    } else {
      j := LastWriter(names, graph, s[..n], k, i);
    }
  }

  /** When `v` comes first, an entry it still has at the end is one that nobody else writes. */
  lemma FirstNeedsOwnEntry<X>(names: map<X, Names>, graph: map<string, X>, s: seq<X>, v: X)
    requires Order(s, graph.Values) && s != [] && s[0] == v && StaysListed(names, graph, s, v)
    ensures exists k :: OwnEntry(names, graph, v, k)
  {
    var d := After(names, graph, s);
    var k :| k in d && d[k] == Self(v);
    forall w | w in graph.Values && w != v ensures !Writes(names, w, k) {
      var i :| 0 <= i < |s| && s[i] == w;
      if Writes(names, w, k) {
        var j := LastWriter(names, graph, s, k, i);
        assert false;
      }
    }
    if Writes(names, v, k) {
      var j := LastWriter(names, graph, s, k, 0);
    } else {
      Unwritten(names, graph, s, k);
    }
    assert OwnEntry(names, graph, v, k);
  }

  /** A translator is still listed after the pass, whatever the order, if and only if it has an entry
      that no other translator writes. */
  lemma ListedInEveryOrderIff<X>(names: map<X, Names>, graph: map<string, X>, v: X)
    requires v in graph.Values
    ensures (forall s :: Order(s, graph.Values) ==> StaysListed(names, graph, s, v))
      <==> exists k :: OwnEntry(names, graph, v, k)
  {
    if k :| OwnEntry(names, graph, v, k) {
      forall s | Order(s, graph.Values) ensures StaysListed(names, graph, s, v) {
        OwnEntryStays(names, graph, s, v, k);
      }
    } else {
      var rest := SomeOrder(graph.Values - {v});
      var s := [v] + rest;
      assert Order(s, graph.Values);
      if StaysListed(names, graph, s, v) {
        FirstNeedsOwnEntry(names, graph, s, v);
        assert false;
      }
    }
  }

  // ---- a pass over the objects -------------------------------------------------------

  /** Types and filters are well formed, and no filter is itself filtered. */
  predicate GoodTable(filters: map<string, string>) {
    forall t :: t in filters ==> Typed(t) && Typed(filters[t]) && filters[t] !in filters
  }

  function NamesIn(n: Node<Translator>, filters: map<string, string>): Names
    requires GoodTable(filters) && n.typ in filters
  {
    var (moved, filter) := ProtNames(n.name, n.typ, filters[n.typ]);
    Names(moved, filter)
  }

  /** The translators that the pass filters, with the names it gives. */
  function AllNames(g: map<Translator, Node<Translator>>, filters: map<string, string>): map<Translator, Names>
    requires GoodTable(filters)
  {
    map v | v in g && g[v].typ in filters :: NamesIn(g[v], filters)
  }

  /** `v` is a filter of type `filter` over a new object that is what `v` was in `g`. */
  ghost predicate Wrapped(g: map<Translator, Node<Translator>>, v: Translator, filter: string)
    requires v in g
    reads v, v.subvols
  {
    && v.typ == filter && |v.subvols| == 1 && v.subvols[0] !in g
    && v.subvols[0].typ == g[v].typ && v.subvols[0].opts == g[v].opts && v.subvols[0].subvols == g[v].subs
  }

  /** The pass has dealt with `v`. */
  ghost predicate Passed(g: map<Translator, Node<Translator>>, filters: map<string, string>, v: Translator)
    requires v in g
    reads v, v.subvols
  {
    if g[v].typ in filters then Wrapped(g, v, filters[g[v].typ]) else v.View() == g[v]
  }

  /** The entries of `graph` are those of `d`. */
  ghost predicate Tracks(g: map<Translator, Node<Translator>>, graph: map<string, Translator>,
                         d: map<string, Holder<Translator>>) {
    && graph.Keys == d.Keys
    && forall k :: k in d ==> if d[k].Self? then graph[k] == d[k].v else graph[k] !in g
  }

  lemma TracksListed(g: map<Translator, Node<Translator>>, graph: map<string, Translator>,
                     d: map<string, Holder<Translator>>)
    requires Tracks(g, graph, d)
    ensures forall v :: v in g ==> (v in graph.Values <==> Self(v) in d.Values)
  {
    forall v | v in g ensures v in graph.Values <==> Self(v) in d.Values {
      if v in graph.Values {
        var k :| k in graph && graph[k] == v;
        assert k in d && d[k] == Self(v);
      }
      if Self(v) in d.Values {
        var k :| k in d && d[k] == Self(v);
        assert graph[k] == v;
      }
    }
  }

  lemma TracksPush(g: map<Translator, Node<Translator>>, names: map<Translator, Names>, graph: map<string, Translator>,
                   d: map<string, Holder<Translator>>, v: Translator, y: Translator)
    requires Tracks(g, graph, d) && v in names && y !in g
    ensures Tracks(g, graph[names[v].moved := y][names[v].filter := v], Visit(names, d, v))
  {
  }

  lemma OrderNext<X>(names: map<X, Names>, graph: map<string, X>, s: seq<X>, i: nat, sofar: seq<X>, done: set<X>)
    requires Order(s, graph.Values) && i < |s| && sofar == s[..i] && Order(sofar, done)
    ensures s[i] in graph.Values && s[i] !in done && Order(sofar + [s[i]], done + {s[i]})
    ensures sofar + [s[i]] == s[..i + 1]
    ensures After(names, graph, sofar + [s[i]]) == Visit(names, After(names, graph, sofar), s[i])
  {
    assert (sofar + [s[i]])[..i] == sofar;
  }

  /** One turn of the loop. */
  method PassOne(ghost g: map<Translator, Node<Translator>>, graph: map<string, Translator>,
                 filters: map<string, string>, v: Translator, ghost done: set<Translator>,
                 ghost d: map<string, Holder<Translator>>)
    returns (graph': map<string, Translator>)
    requires GoodTable(filters) && v in g && done <= g.Keys && v !in done && v.View() == g[v]
    requires (forall w :: w in done ==> Passed(g, filters, w)) && Tracks(g, graph, d)
    modifies v
    ensures forall w :: w in done + {v} ==> Passed(g, filters, w)
    ensures Tracks(g, graph', Visit(AllNames(g, filters), d, v))
    ensures forall w :: w in graph'.Values ==> w in graph.Values || w == v || fresh(w)
  {
    graph' := graph;
    if v.typ in filters {
      var ok, newXl;
      ok, graph', newXl := ProtPushFilter(graph, v, filters[v.typ]);
      assert newXl !in g;
      TracksPush(g, AllNames(g, filters), graph, d, v, newXl);
    }
  }

  /** graph.values(), in some order. A translator that is listed under two keys comes once here: when it
      comes again, its type is one that the pass does not filter. */
  method Values(graph: map<string, Translator>) returns (s: seq<Translator>)
    ensures Order(s, graph.Values)
  {
    s := [];
    var rest := graph.Values;
    ghost var done := {};
    while rest != {}
      invariant done + rest == graph.Values && done !! rest && Order(s, done)
      decreases rest
    {
      var v :| v in rest;
      s, done, rest := s + [v], done + {v}, rest - {v};
    }
  }

  /** One loop over the values of `graph`, which come in the order `s`. */
  method Pass(ghost g: map<Translator, Node<Translator>>, graph: map<string, Translator>, filters: map<string, string>,
              s: seq<Translator>)
    returns (graph': map<string, Translator>)
    requires GoodTable(filters) && Shows(g) && graph.Values <= g.Keys && Order(s, graph.Values)
    modifies graph.Values
    ensures forall v :: v in graph.Values ==> Passed(g, filters, v)
    ensures forall v :: v in g && v !in graph.Values ==> v.View() == g[v]
    ensures forall v :: v in graph'.Values ==> v in graph.Values || fresh(v)
    ensures forall v :: v in g ==> (v in graph'.Values <==> StaysListed(AllNames(g, filters), graph, s, v))
  {
    graph' := graph;
    ghost var names := AllNames(g, filters);
    ghost var sofar, done, d := [], {}, Start(graph);
    for i := 0 to |s|
      invariant sofar == s[..i] && Order(sofar, done) && done <= graph.Values
      invariant forall v :: v in done ==> Passed(g, filters, v)
      invariant forall v :: v in g && v !in done ==> v.View() == g[v]
      invariant forall v :: v in graph'.Values ==> v in graph.Values || fresh(v)
      invariant Tracks(g, graph', d) && d == After(names, graph, sofar)
    {
      var v := s[i];
      OrderNext(names, graph, s, i, sofar, done);
      graph' := PassOne(g, graph', filters, v, done, d);
      sofar, done, d := sofar + [v], done + {v}, Visit(names, d, v);
    }
    assert sofar == s;
    TracksListed(g, graph', d);
  }

  // ---- prot_filter -------------------------------------------------------------------

  const CLIENT: string := "protocol" + "/" + "client"
  const DISTRIBUTE: string := "cluster" + "/" + "distribute"
  const PROT_CLIENT: string := "features" + "/" + "prot_client"
  const PROT_DHT: string := "features" + "/" + "prot_dht"
  const TRACE: string := "debug" + "/" + "trace"

  const FIRST_PASS: map<string, string> := map[DISTRIBUTE := PROT_DHT, CLIENT := PROT_CLIENT]
  const SECOND_PASS: map<string, string> := map[PROT_CLIENT := TRACE]

  lemma {:induction false} SlashTyped(a: string, b: string)
    ensures Typed(a + "/" + b)
  {
    if a != "" && a[0] != '/' {
      assert (a + "/" + b)[1..] == a[1..] + "/" + b;
      SlashTyped(a[1..], b);
    }
  }

  lemma Tables()
    ensures GoodTable(FIRST_PASS) && GoodTable(SECOND_PASS)
    ensures CLIENT !in SECOND_PASS && DISTRIBUTE !in SECOND_PASS && PROT_DHT !in SECOND_PASS
    ensures CLIENT in FIRST_PASS && FIRST_PASS[CLIENT] == PROT_CLIENT
    ensures DISTRIBUTE in FIRST_PASS && FIRST_PASS[DISTRIBUTE] == PROT_DHT
    ensures PROT_CLIENT in SECOND_PASS && SECOND_PASS[PROT_CLIENT] == TRACE
  {
    SlashTyped("protocol", "client");
    SlashTyped("cluster", "distribute");
    SlashTyped("features", "prot_client");
    SlashTyped("features", "prot_dht");
    SlashTyped("debug", "trace");
    assert |CLIENT| == 15 && |DISTRIBUTE| == 18 && |PROT_CLIENT| == 20 && |PROT_DHT| == 17 && |TRACE| == 11;
  }

  /** `v` is one `filter` over `c`, the translator that `v` was. */
  ghost predicate Under(n: Node<Translator>, filter: string, v: Translator, c: Translator)
    reads v, c
  {
    && v.typ == filter && v.subvols == [c]
    && c.typ == n.typ && c.opts == n.opts && c.subvols == n.subs
  }

  /** `v` is one trace over one prot_client `p` over `c`, the client that `v` was. */
  ghost predicate Protected(n: Node<Translator>, v: Translator, p: Translator, c: Translator)
    reads v, p, c
  {
    v.typ == TRACE && v.subvols == [p] && Under(n, PROT_CLIENT, p, c)
  }

  /** The object the filter `v` stands on, or `v` itself when there is none. */
  function Below1(v: Translator): Translator
    reads v
  {
    if |v.subvols| == 0 then v else v.subvols[0]
  }

  /** After the first pass, in the values `g1`: `v` is `filter` over what it was in `g`. */
  ghost predicate Once(g: map<Translator, Node<Translator>>, g1: map<Translator, Node<Translator>>, v: Translator,
                       filter: string)
    requires v in g
  {
    && v in g1 && g1[v].typ == filter && |g1[v].subs| == 1 && g1[v].subs[0] in g1
    && var c := g1[g1[v].subs[0]];
       c.typ == g[v].typ && c.opts == g[v].opts && c.subs == g[v].subs
  }

  /** The first loop, with the values of the objects after it. */
  method FirstPass(ghost g: map<Translator, Node<Translator>>, graph: map<string, Translator>)
    returns (mid: map<string, Translator>, ghost g1: map<Translator, Node<Translator>>, s: seq<Translator>)
    requires Shows(g) && graph.Values <= g.Keys && GoodTable(FIRST_PASS)
    modifies graph.Values
    ensures Shows(g1) && mid.Values <= g1.Keys && Order(s, graph.Values)
    ensures forall v :: v in mid.Values ==> v in graph.Values || fresh(v)
    ensures forall v :: v in g ==> (v in mid.Values <==> StaysListed(AllNames(g, FIRST_PASS), graph, s, v))
    ensures forall v :: v in graph.Values && g[v].typ in FIRST_PASS ==> Once(g, g1, v, FIRST_PASS[g[v].typ])
    ensures forall v :: v in g && (v !in graph.Values || g[v].typ !in FIRST_PASS) ==> v in g1 && g1[v] == g[v]
  {
    s := Values(graph);
    mid := Pass(g, graph, FIRST_PASS, s);
    var inner := set v | v in graph.Values && g[v].typ in FIRST_PASS :: Below1(v);
    g1 := map o | o in g.Keys + inner + mid.Values :: o.View();
    forall v | v in graph.Values && g[v].typ in FIRST_PASS ensures Once(g, g1, v, FIRST_PASS[g[v].typ]) {
      assert Passed(g, FIRST_PASS, v);
      assert Below1(v) in inner;
    }
    forall v | v in g && (v !in graph.Values || g[v].typ !in FIRST_PASS) ensures v in g1 && g1[v] == g[v] {
      if v in graph.Values {
        assert Passed(g, FIRST_PASS, v);
      }
    }
  }

  /** The second loop. */
  method SecondPass(ghost g1: map<Translator, Node<Translator>>, graph: map<string, Translator>)
    returns (graph': map<string, Translator>)
    requires Shows(g1) && graph.Values <= g1.Keys
    modifies graph.Values
    ensures forall v :: v in graph.Values && g1[v].typ == PROT_CLIENT ==> Wrapped(g1, v, TRACE)
    ensures forall v :: v in g1 && (v !in graph.Values || g1[v].typ != PROT_CLIENT) ==> v.View() == g1[v]
  {
    Tables();
    var s := Values(graph);
    graph' := Pass(g1, graph, SECOND_PASS, s);
    forall v | v in g1 && (v !in graph.Values || g1[v].typ != PROT_CLIENT) ensures v.View() == g1[v] {
      if v in graph.Values {
        assert Passed(g1, SECOND_PASS, v);
      }
    }
    forall v | v in graph.Values && g1[v].typ == PROT_CLIENT ensures Wrapped(g1, v, TRACE) {
      assert Passed(g1, SECOND_PASS, v);
    }
  }

  lemma TwiceFiltered(g: map<Translator, Node<Translator>>, g1: map<Translator, Node<Translator>>, v: Translator)
    requires v in g && g[v].typ == CLIENT && Once(g, g1, v, PROT_CLIENT) && Wrapped(g1, v, TRACE)
    requires g1[v].subs[0].View() == g1[g1[v].subs[0]]
    ensures Protected(g[v], v, Below1(v), Below1(Below1(v)))
  {
    assert g1[v].subs == [g1[v].subs[0]];
    assert v.subvols == [v.subvols[0]];
  }

  lemma OnceFiltered(g: map<Translator, Node<Translator>>, g1: map<Translator, Node<Translator>>, v: Translator,
                     filter: string)
    requires v in g && Once(g, g1, v, filter) && v.View() == g1[v]
    requires g1[v].subs[0].View() == g1[g1[v].subs[0]]
    ensures Under(g[v], filter, v, Below1(v))
  {
    assert v.subvols == [v.subvols[0]];
  }

  /** What the two passes have made of a client: if the first pass left it in the dictionary it is under
      exactly one trace over one prot_client, and otherwise under one prot_client only. */
  ghost predicate ClientDone(n: Node<Translator>, listed: bool, v: Translator)
    reads v, Below1(v), Below1(Below1(v))
  {
    if listed then Protected(n, v, Below1(v), Below1(Below1(v))) else Under(n, PROT_CLIENT, v, Below1(v))
  }

  /** What they have made of a translator that was a prot_client from the beginning. */
  ghost predicate ProtDone(n: Node<Translator>, listed: bool, v: Translator)
    reads v, Below1(v)
  {
    if listed then Under(n, TRACE, v, Below1(v)) else v.View() == n
  }

  lemma TraceOnly(g1: map<Translator, Node<Translator>>, v: Translator)
    requires v in g1 && Wrapped(g1, v, TRACE)
    ensures Under(g1[v], TRACE, v, Below1(v))
  {
    assert v.subvols == [v.subvols[0]];
  }

  /** The two passes of prot_filter. */
  method Protect(ghost g: map<Translator, Node<Translator>>, graph: map<string, Translator>)
    returns (graph': map<string, Translator>, s: seq<Translator>)
    requires Shows(g) && graph.Values <= g.Keys
    modifies graph.Values
    ensures GoodTable(FIRST_PASS) && Order(s, graph.Values)
    ensures forall v :: v in graph.Values && g[v].typ == CLIENT ==>
      ClientDone(g[v], StaysListed(AllNames(g, FIRST_PASS), graph, s, v), v)
    ensures forall v :: v in graph.Values && g[v].typ == DISTRIBUTE ==> Under(g[v], PROT_DHT, v, Below1(v))
    ensures forall v :: v in graph.Values && g[v].typ == PROT_CLIENT ==>
      ProtDone(g[v], StaysListed(AllNames(g, FIRST_PASS), graph, s, v), v)
    ensures forall v :: v in g && (v !in graph.Values || (g[v].typ !in FIRST_PASS && g[v].typ !in SECOND_PASS)) ==>
      v.View() == g[v]
  {
    Tables();
    var mid; ghost var g1;
    mid, g1, s := FirstPass(g, graph);
    graph' := SecondPass(g1, mid);
    forall v | v in graph.Values && g[v].typ == CLIENT
      ensures ClientDone(g[v], StaysListed(AllNames(g, FIRST_PASS), graph, s, v), v)
    {
      if v in mid.Values {
        TwiceFiltered(g, g1, v);
      } else {
        OnceFiltered(g, g1, v, PROT_CLIENT);
      }
    }
    forall v | v in graph.Values && g[v].typ == DISTRIBUTE ensures Under(g[v], PROT_DHT, v, Below1(v)) {
      OnceFiltered(g, g1, v, PROT_DHT);
    }
    forall v | v in graph.Values && g[v].typ == PROT_CLIENT
      ensures ProtDone(g[v], StaysListed(AllNames(g, FIRST_PASS), graph, s, v), v)
    {
      assert g1[v] == g[v];
      if v in mid.Values {
        TraceOnly(g1, v);
      }
    }
  }

  // ---- colliding clients -------------------------------------------------------------

  lemma Suffixes()
    ensures Typed(CLIENT) && Suffix(CLIENT) == "-client"
    ensures Typed(PROT_CLIENT) && Suffix(PROT_CLIENT) == "-prot_client"
  {
    KindOf(CLIENT, "protocol", "client", "");
    KindOf(PROT_CLIENT, "features", "prot_client", "");
  }

  lemma Found()
    ensures Find("a", "-client") == None && Find("a-client", "-client") == Some(1)
  {
    assert "a"[1..] == "" && Find("", "-client") == None;
    assert "a-client"[0] != '-' && "a-client"[1..] == "-client" && Find("-client", "-client") == Some(0);
  }

  lemma CollidingNames()
    ensures Typed(CLIENT) && Typed(PROT_CLIENT)
    ensures ProtNames("a", CLIENT, PROT_CLIENT) == ProtNames("a-client", CLIENT, PROT_CLIENT)
    ensures ProtNames("a", CLIENT, PROT_CLIENT).0 == "a-client"
  {
    Suffixes();
    Found();
    assert "a" + "-client" == "a-client" && "a-client"[..1] == "a";
    assert "a" + "-prot_client" + "a-client"[1 + |"-client"|..] == "a" + "-prot_client";
  }

  /** Two translators get the same two names. When `b` comes first, it loses both entries to `a`. */
  lemma Overwritten<X>(names: map<X, Names>, graph: map<string, X>, a: X, b: X, k: string)
    requires a != b && a in names && b in names && names[a] == names[b] && k != names[b].moved
    requires graph == map[k := a, names[b].moved := b]
    ensures Order([b, a], graph.Values) && !StaysListed(names, graph, [b, a], b)
  {
    assert graph[k] == a && graph[names[b].moved] == b;
    forall e ensures !OwnEntry(names, graph, b, e) {
      assert Writes(names, a, e) <==> Writes(names, b, e);
    }
    if StaysListed(names, graph, [b, a], b) {
      FirstNeedsOwnEntry(names, graph, [b, a], b);
      assert false;
    }
  }

  /** A concrete case: clients with the names "a" and "a-client". When the second comes first, the second
      pass does not find it, and it never gets its trace. */
  lemma CollidingClients(g: map<Translator, Node<Translator>>, graph: map<string, Translator>, a: Translator,
                         b: Translator)
    requires a != b && graph == map["a" := a, "a-client" := b]
    requires g == map[a := Node("a", CLIENT, [], []), b := Node("a-client", CLIENT, [], [])]
    ensures GoodTable(FIRST_PASS) && b in graph.Values && graph.Values <= g.Keys && Order([b, a], graph.Values)
    ensures !StaysListed(AllNames(g, FIRST_PASS), graph, [b, a], b)
  {
    Tables();
    CollidingNames();
    assert graph["a-client"] == b;
    Overwritten(AllNames(g, FIRST_PASS), graph, a, b, "a");
  }

  /** The first pass in an order that takes a client out of the dictionary. */
  method PassLosing(ghost g: map<Translator, Node<Translator>>, graph: map<string, Translator>, s: seq<Translator>,
                    v: Translator)
    returns (graph': map<string, Translator>)
    requires GoodTable(FIRST_PASS) && Shows(g) && graph.Values <= g.Keys && Order(s, graph.Values)
    requires v in graph.Values && g[v].typ == CLIENT && !StaysListed(AllNames(g, FIRST_PASS), graph, s, v)
    modifies graph.Values
    ensures v !in graph'.Values && v.typ == PROT_CLIENT
  {
    Tables();
    graph' := Pass(g, graph, FIRST_PASS, s);
    assert Passed(g, FIRST_PASS, v);
  }

  /** The colliding clients as objects. */
  method CollidingPass(a: Translator, b: Translator) returns (graph: map<string, Translator>)
    requires a != b && a.View() == Node("a", CLIENT, [], []) && b.View() == Node("a-client", CLIENT, [], [])
    modifies a, b
    ensures b !in graph.Values && b.typ == PROT_CLIENT
  {
    ghost var g := map[a := a.View(), b := b.View()];
    graph := map["a" := a, "a-client" := b];
    CollidingClients(g, graph, a, b);
    graph := PassLosing(g, graph, [b, a], b);
  }
}
