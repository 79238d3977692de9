/**
  push_filter and delete with the dictionary they work on: push_filter overwrites dictionary entries,
  and delete only reaches the translators that the dictionary lists.
 */
module FilterRuns {
  import opened Wrappers
  import opened Volfile
  import opened VolfileHeap
  import opened Filters
  import opened PushFilter

  // ---- the dictionary ----------------------------------------------------------------

  /** The dictionary after push_filter. */
  function PushedDict<X>(dict: map<string, X>, p: Push<X>): map<string, X> {
    dict[p.newName := p.moved][p.filter.name := p.target]
  }

  /** `v` has an entry under a name that the push does not give. */
  predicate KeepsEntry<X(==)>(dict: map<string, X>, p: Push<X>, v: X) {
    exists k :: k in dict && k != p.newName && k != p.filter.name && dict[k] == v
  }

  /** The names are fresh: they differ, and nobody else loses his last entry to them. */
  predicate FreshPush<X(==)>(dict: map<string, X>, p: Push<X>) {
    p.newName != p.filter.name && forall v :: v in dict.Values && v != p.target ==> KeepsEntry(dict, p, v)
  }

  lemma ListedAfter<X>(dict: map<string, X>, p: Push<X>, v: X)
    requires v != p.moved
    ensures v in PushedDict(dict, p).Values <==> v == p.target || KeepsEntry(dict, p, v)
  {
    var d := PushedDict(dict, p);
    assert d[p.filter.name] == p.target;
    if KeepsEntry(dict, p, v) {
      var k :| k in dict && k != p.newName && k != p.filter.name && dict[k] == v;
      assert d[k] == v;
    }
    if v in d.Values && v != p.target {
      var k :| k in d && d[k] == v;
      assert k != p.filter.name && k != p.newName;
    }
  }

  lemma MovedListed<X>(dict: map<string, X>, p: Push<X>)
    requires p.moved !in dict.Values && p.moved != p.target
    ensures p.moved in PushedDict(dict, p).Values <==> p.newName != p.filter.name
  {
    var d := PushedDict(dict, p);
    if p.newName != p.filter.name {
      assert d[p.newName] == p.moved;
    }
  }

  /** The dictionary lists every translator after a push if and only if the names are fresh. */
  lemma FreshListsAll<X>(dict: map<string, X>, p: Push<X>)
    requires p.target in dict.Values && p.moved !in dict.Values
    ensures FreshPush(dict, p) <==> PushedDict(dict, p).Values == dict.Values + {p.moved}
  {
    var d := PushedDict(dict, p);
    MovedListed(dict, p);
    forall v | v in dict.Values ensures v in d.Values <==> v == p.target || KeepsEntry(dict, p, v) {
      ListedAfter(dict, p, v);
    }
    assert d.Values <= dict.Values + {p.moved};
    if FreshPush(dict, p) {
      assert d.Values == dict.Values + {p.moved};
    }
  }

  // ---- delete through the dictionary -------------------------------------------------

  /** The graph after delete, when only the translators in `listed` are reached. */
  function DeletedIn<X(==)>(g: map<X, Node<X>>, listed: set<X>, victim: X): map<X, Node<X>>
    requires victim in g && |g[victim].subs| == 1
  {
    map z | z in g :: if z in listed then g[z].(subs := Redirect(g[z].subs, victim, g[victim].subs[0])) else g[z]
  }

  /** No translator outside `listed` refers to `x`. */
  predicate Unseen<X(==)>(g: map<X, Node<X>>, listed: set<X>, x: X) {
    forall z :: z in g && z !in listed ==> x !in g[z].subs
  }

  /** A delete that misses nobody who refers to the victim reaches as far as one that misses nobody. */
  lemma UnseenDeleted<X>(g: map<X, Node<X>>, listed: set<X>, victim: X)
    requires victim in g && |g[victim].subs| == 1 && Unseen(g, listed, victim)
    ensures DeletedIn(g, listed, victim) == Deleted(g, victim)
  {
    forall z | z in g && z !in listed
      ensures g[z] == g[z].(subs := Redirect(g[z].subs, victim, g[victim].subs[0]))
    {
      NoneLeft(g[z].subs, victim, g[victim].subs[0]);
    }
  }

  /** After the push, the dictionary does not list what was `z`: the push took its last entry, or it
      had none. */
  predicate Dropped<X(==)>(dict: map<string, X>, p: Push<X>, z: X) {
    if z == p.target then p.newName == p.filter.name else !KeepsEntry(dict, p, z)
  }

  lemma RedirectChanges<X>(s: seq<X>, x: X, y: X)
    requires x != y
    ensures Redirect(s, x, y) == s <==> x !in s
  {
    if x in s {
      var i :| 0 <= i < |s| && s[i] == x;
      assert Redirect(s, x, y)[i] == y;
    } else {
      NoneLeft(s, x, y);
    }
  }

  /** delete undoes push_filter, up to the identity and the name of the translator, if and only if no
      translator that the dictionary does not list after the push refers to the filtered one. */
  lemma DeleteUndoesPushIff<X>(g: map<X, Node<X>>, dict: map<string, X>, p: Push<X>)
    requires dict.Values <= g.Keys && p.target in g && p.moved !in g
    ensures SameUpTo(g, DeletedIn(PushedBy(g, p), PushedDict(dict, p).Values, p.target), p.target, p.moved)
      <==> forall z :: z in g && Dropped(dict, p, z) ==> p.target !in g[z].subs
  {
    var x, y := p.target, p.moved;
    var g1, listed := PushedBy(g, p), PushedDict(dict, p).Values;
    var h := DeletedIn(g1, listed, x);
    MovedListed(dict, p);
    forall z | z in g
      ensures Moved(g[z], if z == x then y else z, h, z == x, x, y) <==> (Dropped(dict, p, z) ==> x !in g[z].subs)
    {
      var z1 := if z == x then y else z;
      ListedAfter(dict, p, z);
      assert z1 in listed <==> !Dropped(dict, p, z);
      assert g1[z1].subs == g[z].subs && g1[x].subs == [y];
      RedirectChanges(g[z].subs, x, y);
    }
  }

  // ---- on objects --------------------------------------------------------------------

  /** delete on the objects that show `g`. */
  method DeleteInGraph(ghost g: map<Translator, Node<Translator>>, graph: map<string, Translator>, victim: Translator)
    requires Shows(g) && graph.Values <= g.Keys && victim in g && |g[victim].subs| == 1 && g[victim].subs[0] != victim
    modifies graph.Values`subvols
    ensures Shows(DeletedIn(g, graph.Values, victim))
  {
    var ok := Delete(graph, victim);
    assert ok;
  }

  /** The push that push_filter makes for `x` and its new object `y`. */
  function PushOf(n: Node<Translator>, x: Translator, y: Translator, filter: string, opts: seq<(string, string)>)
    : Push<Translator>
    requires Typed(n.typ) && Typed(filter)
  {
    var (newName, name) := VolNames(n.name, n.typ, filter);
    Push(x, y, newName, Node(name, filter, opts, []))
  }

  /** push_filter on the objects that show `g`. */
  method PushInGraph(ghost g: map<Translator, Node<Translator>>, graph: map<string, Translator>, x: Translator,
                     filter: string, opts: seq<(string, string)>)
    returns (graph': map<string, Translator>, y: Translator)
    requires Shows(g) && x in g && Typed(g[x].typ) && Typed(filter)
    modifies x
    ensures fresh(y) && y !in g
    ensures var p := PushOf(g[x], x, y, filter, opts); Shows(PushedBy(g, p)) && graph' == PushedDict(graph, p)
  {
    var ok;
    assert x.View() == g[x];
    ok, graph', y := VolPushFilter(graph, x, filter, opts);
    assert y !in g;
    ghost var p := PushOf(g[x], x, y, filter, opts);
    FilteredShows(g, x, y, p.newName, p.filter);
  }

  /** push_filter and then delete. What the objects show in the end is what DeleteUndoesPushIff is about. */
  method PushThenDelete(ghost g: map<Translator, Node<Translator>>, graph: map<string, Translator>, x: Translator,
                        filter: string, opts: seq<(string, string)>)
    returns (graph': map<string, Translator>, y: Translator)
    requires Shows(g) && graph.Values <= g.Keys && x in g && Typed(g[x].typ) && Typed(filter)
    modifies g.Keys
    ensures fresh(y) && y !in g
    ensures var p := PushOf(g[x], x, y, filter, opts);
      && graph' == PushedDict(graph, p)
      && Shows(DeletedIn(PushedBy(g, p), graph'.Values, x))
  {
    graph', y := PushInGraph(g, graph, x, filter, opts);
    ghost var p := PushOf(g[x], x, y, filter, opts);
    assert graph'.Values <= PushedBy(g, p).Keys;
    DeleteInGraph(PushedBy(g, p), graph', x);
  }

  /** A concrete case. Translator `a` has the name "a" and type "x/t", and `z` has the name "a-t" and
      uses `a`. The moved translator takes the name "a-t" from `z`, so delete does not reach `z`, which
      is left on the filter. */
  method CollidingNames(a: Translator, z: Translator) returns (graph: map<string, Translator>, y: Translator)
    requires a != z && a.View() == Node("a", "x/t", [], []) && z.View() == Node("a-t", "x/u", [], [a])
    modifies a, z
    ensures z !in graph.Values && z.subvols == [a] && a.typ == "f/g" && a.subvols == [y] && y.typ == "x/t"
  {
    ghost var g := map[a := a.View(), z := z.View()];
    graph := map["a" := a, "a-t" := z];
    CollidingTypes();
    assert graph.Values == {a, z} by {
      assert graph["a"] == a && graph["a-t"] == z;
    }
    ghost var before := graph;
    graph, y := PushThenDelete(g, graph, a, "f/g", []);
    ghost var p := PushOf(g[a], a, y, "f/g", []);
    assert p == Push(a, y, "a-t", Node("a-g", "f/g", [], []));
    assert !KeepsEntry(before, p, z);
    ListedAfter(before, p, z);
    ghost var h := DeletedIn(PushedBy(g, p), graph.Values, a);
    assert h[z] == g[z] && h[a].typ == "f/g" && h[y].typ == "x/t";
    assert z.View() == h[z] && a.View() == h[a] && y.View() == h[y];
  }

  /** Another one, without any collision: a volume name that is repeated in the file leaves its first
      translator `z` out of the dictionary from the beginning. The names of the push are fresh, and delete
      does not reach `z` all the same. */
  lemma RepeatedName<X>(a: X, z: X, z2: X, y: X)
    requires a != z && a != z2 && z != z2 && y !in {a, z, z2}
    ensures
      var g := map[a := Node("a", "x/t", [], []), z := Node("z", "x/u", [], [a]), z2 := Node("z", "x/u", [], [z])];
      var dict, p := map["a" := a, "z" := z2], Push(a, y, "a-t", Node("a-g", "f/g", [], []));
      && dict.Values <= g.Keys && FreshPush(dict, p)
      && !SameUpTo(g, DeletedIn(PushedBy(g, p), PushedDict(dict, p).Values, a), a, y)
  {
    var g := map[a := Node("a", "x/t", [], []), z := Node("z", "x/u", [], [a]), z2 := Node("z", "x/u", [], [z])];
    var dict, p := map["a" := a, "z" := z2], Push(a, y, "a-t", Node("a-g", "f/g", [], []));
    assert dict["z"] == z2 && KeepsEntry(dict, p, z2);
    assert Dropped(dict, p, z) && a in g[z].subs;
    DeleteUndoesPushIff(g, dict, p);
  }

  lemma CollidingTypes()
    ensures Typed("x/t") && Typed("x/u") && Typed("f/g")
    ensures VolNames("a", "x/t", "f/g") == ("a-t", "a-g")
  {
    assert "x/t"[1..] == "/t" && "/t"[1..] == "t" && "t"[1..] == "";
    assert "f/g"[1..] == "/g" && "/g"[1..] == "g" && "g"[1..] == "";
    assert "x/u"[1..] == "/u";
    assert BeforeSlash("t") == "t" && BeforeSlash("g") == "g";
    assert Second("/t") == Some("t") && Second("/g") == Some("g");
    assert Suffix("x/t") == "-t" && Suffix("f/g") == "-g";
    assert Second("/u").Some? && Second("x/u") == Second("/u");
    assert Base("a", "-t") == "a" && "a" + "-t" == "a-t" && "a" + "-g" == "a-g";
  }

  // ---- any number of pushes and deletes ----------------------------------------------

  /** A call push_filter(graph, graph[key], filter, opts). */
  datatype Call = Call(key: string, filter: string, opts: seq<(string, string)>)

  /** The call does not raise an exception, its names are fresh, and nobody who is not listed refers to
      the translator it filters. */
  predicate CanPush(g: map<Translator, Node<Translator>>, graph: map<string, Translator>, c: Call) {
    && c.key in graph && graph[c.key] in g && Typed(g[graph[c.key]].typ) && Typed(c.filter)
    && Unseen(g, graph.Values, graph[c.key])
    && FreshPush(graph, PushOf(g[graph[c.key]], graph[c.key], graph[c.key], c.filter, c.opts))
  }

  /** `ps` are the pushes that the calls make, up to the first call that cannot be made. */
  ghost predicate Made(g: map<Translator, Node<Translator>>, graph: map<string, Translator>, calls: seq<Call>,
                       ps: seq<Push<Translator>>)
    decreases |calls|
  {
    if calls == [] || !CanPush(g, graph, calls[0]) then ps == []
    else
      var x := graph[calls[0].key];
      && ps != [] && ps[0].moved !in g && ps[0] == PushOf(g[x], x, ps[0].moved, calls[0].filter, calls[0].opts)
      && Made(PushedBy(g, ps[0]), PushedDict(graph, ps[0]), calls[1..], ps[1..])
  }

  lemma MadeLegal(g: map<Translator, Node<Translator>>, graph: map<string, Translator>, calls: seq<Call>,
                  ps: seq<Push<Translator>>)
    requires Made(g, graph, calls, ps)
    ensures LegalPushes(g, ps)
    decreases |calls|
  {
    if calls != [] && CanPush(g, graph, calls[0]) {
      MadeLegal(PushedBy(g, ps[0]), PushedDict(graph, ps[0]), calls[1..], ps[1..]);
    }
  }

  lemma NextVictim(g: map<Translator, Node<Translator>>, p: Push<Translator>, h: map<Translator, Node<Translator>>,
                   phi: map<Translator, Translator>)
    requires Closed(g) && p.target in g && p.moved !in g && Copies(PushedBy(g, p), h, phi)
    ensures p.target in phi && p.moved in phi && phi[p.target] in h
    ensures h[phi[p.target]].subs == [phi[p.moved]] && phi[p.moved] != phi[p.target]
  {
    var g1 := PushedBy(g, p);
    assert p.target in g1 && p.moved in g1;
    assert Copy(g1[p.target], phi[p.target], h, phi) && g1[p.target].subs == [p.moved];
  }

  /** The first call can be made, and `p` is the push it makes. */
  ghost predicate First(g: map<Translator, Node<Translator>>, graph: map<string, Translator>, calls: seq<Call>,
                        p: Push<Translator>) {
    && Closed(g) && calls != [] && CanPush(g, graph, calls[0]) && p.moved !in g && p.target == graph[calls[0].key]
    && p == PushOf(g[p.target], p.target, p.moved, calls[0].filter, calls[0].opts) && Closed(PushedBy(g, p))
  }

  /** The first push and the erasure of all later ones make up the erasure of all. */
  lemma EraseFirst(g: map<Translator, Node<Translator>>, graph: map<string, Translator>, calls: seq<Call>,
                   p: Push<Translator>, ps: seq<Push<Translator>>, h: map<Translator, Node<Translator>>,
                   phi: map<Translator, Translator>)
    requires First(g, graph, calls, p) && Made(PushedBy(g, p), PushedDict(graph, p), calls[1..], ps)
    requires LegalPushes(PushedBy(g, p), ps) && (h, phi) == Erase(PushedBy(g, p), ps)
    ensures Made(g, graph, calls, [p] + ps) && LegalPushes(g, [p] + ps)
    ensures p.target in phi && p.moved in phi && phi[p.target] in h && g.Keys <= phi.Keys
    ensures h[phi[p.target]].subs == [phi[p.moved]] && phi[p.moved] != phi[p.target]
    ensures Erase(g, [p] + ps) == (Deleted(h, phi[p.target]), Settle(g, p, phi))
  {
    var all := [p] + ps;
    assert all[0] == p && all[1..] == ps;
    NextVictim(g, p, h, phi);
  }

  /** The same of all translators are not listed before and after, and they have not moved. */
  ghost predicate SameUnlisted<X>(all: set<X>, listed: set<X>, all': set<X>, listed': set<X>, phi: map<X, X>) {
    && listed' <= all' && all' - listed' == all - listed
    && forall z :: z in all && z !in listed ==> z in phi && phi[z] == z
  }

  lemma UnlistedStays<X>(all: set<X>, listed: set<X>, x: X, y: X, all': set<X>, listed': set<X>, phi: map<X, X>)
    requires listed <= all && x in listed && y !in all && y in phi && all <= phi.Keys
    requires SameUnlisted(all + {y}, listed + {y}, all', listed', phi)
    ensures SameUnlisted(all, listed, all', listed', SettleAll(all, x, y, phi))
  {
    assert all + {y} - (listed + {y}) == all - listed;
  }

  /** What the graph is once the calls have been made and the filters deleted. */
  ghost predicate Erased(g: map<Translator, Node<Translator>>, graph: map<string, Translator>, calls: seq<Call>,
                         ps: seq<Push<Translator>>, phi: map<Translator, Translator>,
                         h: map<Translator, Node<Translator>>)
  {
    Closed(g) && Made(g, graph, calls, ps) && LegalPushes(g, ps) && (h, phi) == Erase(g, ps)
  }

  /** The first call, if it can be made. */
  method PushFirst(ghost g: map<Translator, Node<Translator>>, objs: set<Translator>, graph: map<string, Translator>,
                   calls: seq<Call>)
    returns (made: bool, graph': map<string, Translator>, x: Translator?, y: Translator?,
             ghost p: Option<Push<Translator>>)
    requires Shows(g) && Closed(g) && objs == g.Keys && graph.Values <= g.Keys
    modifies g.Keys
    ensures !made ==> Shows(g) && (calls == [] || !CanPush(g, graph, calls[0]))
    ensures made ==> p.Some? && First(g, graph, calls, p.value) && x == p.value.target && y == p.value.moved
    ensures made ==> fresh(y) && Shows(PushedBy(g, p.value)) && graph' == PushedDict(graph, p.value)
    ensures made ==> graph'.Values == graph.Values + {y} && PushedBy(g, p.value).Keys == g.Keys + {y}
  {
    made, graph', x, y, p := false, graph, null, null, None;
    if calls == [] || calls[0].key !in graph {
      return;
    }
    var c := calls[0];
    x := graph[c.key];
    assert x in g && x.View() == g[x];
    if !Typed(x.typ) || !Typed(c.filter) || !FreshPush(graph, PushOf(x.View(), x, x, c.filter, c.opts)) {
      return;
    }
    if exists z :: z in objs && z !in graph.Values && x in z.subvols {
      return;
    }
    made := true;
    graph', y := PushInGraph(g, graph, x, c.filter, c.opts);
    p := Some(PushOf(g[x], x, y, c.filter, c.opts));
    FreshListsAll(graph, p.value);
    PushKeepsClosed(g, p.value);
  }

  /** Nobody who is not listed refers to the filter when its turn to be deleted comes. */
  lemma UnseenThen(g: map<Translator, Node<Translator>>, listed: set<Translator>, p: Push<Translator>,
                   listed': set<Translator>, phi: map<Translator, Translator>, h: map<Translator, Node<Translator>>)
    requires listed <= g.Keys && p.target in listed && p.moved !in g && Unseen(g, listed, p.target)
    requires Copies(PushedBy(g, p), h, phi)
    requires SameUnlisted(g.Keys + {p.moved}, listed + {p.moved}, h.Keys, listed', phi)
    ensures p.target in phi && Unseen(h, listed', phi[p.target])
  {
    var g1 := PushedBy(g, p);
    assert p.target in g1;
    forall z | z in h && z !in listed' ensures phi[p.target] !in h[z].subs {
      assert z in h.Keys - listed';
      assert z in g && z !in listed && phi[z] == z && z != p.target && z != p.moved;
      assert Copy(g1[z], z, h, phi) && g1[z].subs == g[z].subs;
      forall i | 0 <= i < |h[z].subs| ensures h[z].subs[i] != phi[p.target] {
        assert g[z].subs[i] != p.target && g[z].subs[i] in g1;
      }
    }
  }

  /** delete of a victim that nobody unlisted refers to. */
  method DeleteUnseen(ghost h: map<Translator, Node<Translator>>, graph: map<string, Translator>, victim: Translator)
    requires Shows(h) && graph.Values <= h.Keys && victim in h && Unseen(h, graph.Values, victim)
    requires |h[victim].subs| == 1 && h[victim].subs[0] != victim
    modifies h.Keys`subvols
    ensures Shows(Deleted(h, victim))
  {
    DeleteInGraph(h, graph, victim);
    UnseenDeleted(h, graph.Values, victim);
  }

  /** The delete that goes with the first push. */
  method EraseLast(ghost g: map<Translator, Node<Translator>>, objs: set<Translator>,
                   ghost graph: map<string, Translator>, ghost calls: seq<Call>, ghost p: Push<Translator>,
                   ghost ps: seq<Push<Translator>>, graph': map<string, Translator>, x: Translator, y: Translator,
                   phi: map<Translator, Translator>, ghost h: map<Translator, Node<Translator>>)
    returns (phi': map<Translator, Translator>, ghost h': map<Translator, Node<Translator>>)
    requires First(g, graph, calls, p) && x == p.target && y == p.moved && objs == g.Keys && graph.Values <= g.Keys
    requires Shows(h) && Erased(PushedBy(g, p), PushedDict(graph, p), calls[1..], ps, phi, h)
    requires SameUnlisted(g.Keys + {y}, graph.Values + {y}, h.Keys, graph'.Values, phi)
    modifies h.Keys`subvols
    ensures Shows(h') && Erased(g, graph, calls, [p] + ps, phi', h') && h'.Keys == h.Keys
    ensures SameUnlisted(g.Keys, graph.Values, h'.Keys, graph'.Values, phi')
  {
    EraseFirst(g, graph, calls, p, ps, h, phi);
    assert SameUnlisted(g.Keys, graph.Values, h.Keys, graph'.Values, SettleAll(objs, x, y, phi)) by {
      UnlistedStays(g.Keys, graph.Values, x, y, h.Keys, graph'.Values, phi);
    }
    assert Unseen(h, graph'.Values, phi[x]) by {
      UnseenThen(g, graph.Values, p, graph'.Values, phi, h);
    }
    phi' := SettleAll(objs, x, y, phi);
    DeleteUnseen(h, graph', phi[x]);
    h' := Deleted(h, phi[x]);
  }

  lemma ErasedNothing(g: map<Translator, Node<Translator>>, graph: map<string, Translator>, calls: seq<Call>,
                      phi: map<Translator, Translator>)
    requires Shows(g) && Closed(g) && graph.Values <= g.Keys && phi == map z | z in g.Keys :: z
    requires calls == [] || !CanPush(g, graph, calls[0])
    ensures Erased(g, graph, calls, [], phi, g) && SameUnlisted(g.Keys, graph.Values, g.Keys, graph.Values, phi)
  {
  }

  /** Make the calls one after the other while the names are fresh and nobody unlisted refers to what is
      filtered, and then delete the filters, the last one first. The objects then show the erased graph,
      which is a copy of the original: same types, options and wiring. `phi` tells where each translator
      has gone. */
  method PushAndErase(ghost g: map<Translator, Node<Translator>>, objs: set<Translator>, graph: map<string, Translator>,
                      calls: seq<Call>)
    returns (graph': map<string, Translator>, phi: map<Translator, Translator>, ghost ps: seq<Push<Translator>>,
             ghost h: map<Translator, Node<Translator>>)
    requires Shows(g) && Closed(g) && objs == g.Keys && graph.Values <= g.Keys
    modifies g.Keys
    ensures Shows(h) && Erased(g, graph, calls, ps, phi, h) && Copies(g, h, phi) && fresh(h.Keys - g.Keys)
    ensures SameUnlisted(g.Keys, graph.Values, h.Keys, graph'.Values, phi)
    decreases |calls|
  {
    var made, x, y; ghost var p;
    made, graph', x, y, p := PushFirst(g, objs, graph, calls);
    if !made {
      graph', phi, ps, h := graph, map z | z in objs :: z, [], g;
      ErasedNothing(g, graph, calls, phi);
      return;
    }
    graph', phi, ps, h := PushAndErase(PushedBy(g, p.value), objs + {y}, graph', calls[1..]);
    phi, h := EraseLast(g, objs, graph, calls, p.value, ps, graph', x, y, phi, h);
    ps := [p.value] + ps;
  }
}
