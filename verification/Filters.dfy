/**
  Rewriting a translator graph in place: push_filter puts a filter above a translator by
  turning the translator's own object into the filter, delete takes a unary translator out.
 */
module Filters {
  import opened Volfile
  import opened VolfileHeap

  // ---- what the rewrites mean on a graph ---------------------------------------------

  /** Replace `x` by `y` in a subvolume list. */
  function Redirect<X(==)>(s: seq<X>, x: X, y: X): (r: seq<X>)
    ensures |r| == |s|
    ensures forall i :: 0 <= i < |s| ==> r[i] == if s[i] == x then y else s[i]
  {
    if s == [] then [] else [if s[0] == x then y else s[0]] + Redirect(s[1..], x, y)
  }

  /** The graph after push_filter: object `x` is the filter, the new object `y` took its place. */
  function Pushed<X(==)>(g: map<X, Node<X>>, x: X, y: X, newName: string, filter: Node<X>): map<X, Node<X>>
    requires x in g
  {
    g[y := g[x].(name := newName)][x := filter.(subs := [y])]
  }

  /** The graph after delete: everyone who used the victim uses its only subvolume. */
  function Deleted<X(==)>(g: map<X, Node<X>>, victim: X): map<X, Node<X>>
    requires victim in g && |g[victim].subs| == 1
  {
    map z | z in g :: g[z].(subs := Redirect(g[z].subs, victim, g[victim].subs[0]))
  }

  /** `h` is `g` with `x` moved to `y`: same types, options and wiring, and the same names
      everywhere but there. */
  ghost predicate SameUpTo<X>(g: map<X, Node<X>>, h: map<X, Node<X>>, x: X, y: X) {
    forall z :: z in g ==> Moved(g[z], if z == x then y else z, h, z == x, x, y)
  }

  ghost predicate Moved<X>(n: Node<X>, z: X, h: map<X, Node<X>>, renamed: bool, x: X, y: X) {
    && z in h
    && h[z].typ == n.typ && h[z].opts == n.opts && h[z].subs == Redirect(n.subs, x, y)
    && (renamed || h[z].name == n.name)
  }

  // ---- any number of filters ---------------------------------------------------------

  datatype Push<X> = Push(target: X, moved: X, newName: string, filter: Node<X>)

  /** `h` contains a copy of `g`: `phi` keeps types, options and wiring. */
  ghost predicate Copies<X>(g: map<X, Node<X>>, h: map<X, Node<X>>, phi: map<X, X>) {
    && phi.Keys == g.Keys
    && (forall a, b :: a in g && b in g && phi[a] == phi[b] ==> a == b)
    && (forall z :: z in g ==> Copy(g[z], phi[z], h, phi))
  }

  ghost predicate Copy<X>(n: Node<X>, z: X, h: map<X, Node<X>>, phi: map<X, X>) {
    && z in h && h[z].typ == n.typ && h[z].opts == n.opts && |h[z].subs| == |n.subs|
    && (forall i :: 0 <= i < |n.subs| ==> n.subs[i] in phi && h[z].subs[i] == phi[n.subs[i]])
  }

  function PushedBy<X(==)>(g: map<X, Node<X>>, p: Push<X>): map<X, Node<X>>
    requires p.target in g
  {
    Pushed(g, p.target, p.moved, p.newName, p.filter)
  }

  /** Each push names a translator of the graph at that time and a new object. */
  predicate LegalPushes<X(==)>(g: map<X, Node<X>>, ps: seq<Push<X>>)
    decreases |ps|
  {
    ps == [] || (ps[0].target in g && ps[0].moved !in g && LegalPushes(PushedBy(g, ps[0]), ps[1..]))
  }

  lemma PushKeepsClosed<X>(g: map<X, Node<X>>, p: Push<X>)
    requires Closed(g) && p.target in g
    ensures Closed(PushedBy(g, p))
  {
    var h := PushedBy(g, p);
    forall x | x in h ensures forall i :: 0 <= i < |h[x].subs| ==> h[x].subs[i] in h {
      if x != p.target && x == p.moved {
        assert h[x].subs == g[p.target].subs;
      }
    }
  }

  /** Where deleting the pushed filter leaves the copy of `z`. */
  function Settle<X(==)>(g: map<X, Node<X>>, p: Push<X>, phi: map<X, X>): map<X, X>
    requires p.moved in phi && g.Keys <= phi.Keys
  {
    SettleAll(g.Keys, p.target, p.moved, phi)
  }

  function SettleAll<X(==)>(keys: set<X>, x: X, y: X, phi: map<X, X>): map<X, X>
    requires y in phi && keys <= phi.Keys
  {
    map z | z in keys :: if z == x then phi[y] else phi[z]
  }

  lemma EraseCopy<X>(g: map<X, Node<X>>, p: Push<X>, h: map<X, Node<X>>, phi: map<X, X>, z: X)
    requires Closed(g) && p.target in g && p.moved !in g && Copies(PushedBy(g, p), h, phi) && z in g
    requires phi[p.target] in h && |h[phi[p.target]].subs| == 1 && h[phi[p.target]].subs[0] == phi[p.moved]
    ensures Copy(g[z], Settle(g, p, phi)[z], Deleted(h, phi[p.target]), Settle(g, p, phi))
  {
    var x, y := p.target, p.moved;
    var z1 := if z == x then y else z;
    var g1 := PushedBy(g, p);
    assert Copy(g1[z1], phi[z1], h, phi);
    assert g1[z1].subs == g[z].subs && g1[z1].typ == g[z].typ && g1[z1].opts == g[z].opts;
    var psi, d := Settle(g, p, phi), Deleted(h, phi[x]);
    assert d[phi[z1]].subs == Redirect(h[phi[z1]].subs, phi[x], phi[y]);
    forall i | 0 <= i < |g[z].subs| ensures g[z].subs[i] in psi && d[psi[z]].subs[i] == psi[g[z].subs[i]] {
      var c := g[z].subs[i];
      assert c in g1 && x in g1 && h[phi[z1]].subs[i] == phi[c];
    }
  }

  lemma EraseOne<X>(g: map<X, Node<X>>, p: Push<X>, h: map<X, Node<X>>, phi: map<X, X>)
    requires Closed(g) && p.target in g && p.moved !in g && Copies(PushedBy(g, p), h, phi)
    ensures phi[p.target] in h && |h[phi[p.target]].subs| == 1
    ensures Copies(g, Deleted(h, phi[p.target]), Settle(g, p, phi))
  {
    var x := p.target;
    var g1 := PushedBy(g, p);
    assert g1.Keys == g.Keys + {p.moved};
    assert Copy(g1[x], phi[x], h, phi) && g1[x].subs == [p.moved];
    forall z | z in g ensures Copy(g[z], Settle(g, p, phi)[z], Deleted(h, phi[x]), Settle(g, p, phi)) {
      EraseCopy(g, p, h, phi, z);
    }
    SettleInjective(g, p, phi);
  }

  lemma SettleInjective<X>(g: map<X, Node<X>>, p: Push<X>, phi: map<X, X>)
    requires p.target in g && p.moved !in g && g.Keys <= phi.Keys && p.moved in phi
    requires forall a, b :: a in g.Keys + {p.moved} && b in g.Keys + {p.moved} && phi[a] == phi[b] ==> a == b
    ensures forall a, b :: a in g && b in g && Settle(g, p, phi)[a] == Settle(g, p, phi)[b] ==> a == b
  {
    forall a, b | a in g && b in g && Settle(g, p, phi)[a] == Settle(g, p, phi)[b] ensures a == b {
      var a1 := if a == p.target then p.moved else a;
      var b1 := if b == p.target then p.moved else b;
      assert phi[a1] == phi[b1] && a1 in g.Keys + {p.moved} && b1 in g.Keys + {p.moved};
    }
  }

  /** Push all filters, then delete them, the last one first, each delete reaching every translator.
      What is left contains a copy of the original graph: same types, options and wiring. */
  ghost function Erase<X>(g: map<X, Node<X>>, ps: seq<Push<X>>): (r: (map<X, Node<X>>, map<X, X>))
    requires Closed(g) && LegalPushes(g, ps)
    ensures Copies(g, r.0, r.1)
    decreases |ps|
  {
    if ps == [] then (g, map z | z in g :: z)
    else
      PushKeepsClosed(g, ps[0]);
      var (h, phi) := Erase(PushedBy(g, ps[0]), ps[1..]);
      EraseOne(g, ps[0], h, phi);
      (Deleted(h, phi[ps[0].target]), Settle(g, ps[0], phi))
  }

  /** A pushed filter keeps the graph acyclic. */
  lemma PushKeepsRanked<X>(g: map<X, Node<X>>, rank: map<X, nat>, x: X, y: X, newName: string, filter: Node<X>)
    returns (rank': map<X, nat>)
    requires Ranked(g, rank) && x in g && y !in g
    ensures Ranked(Pushed(g, x, y, newName, filter), rank')
  {
    var p := Pushed(g, x, y, newName, filter);
    rank' := map z | z in p :: if z == y then 2 * rank[x] else 2 * rank[z] + 1;
    forall z | z in p ensures z in rank' && forall i :: 0 <= i < |p[z].subs| ==> Below(p, rank', p[z].subs[i], z) {
      forall i | 0 <= i < |p[z].subs| ensures Below(p, rank', p[z].subs[i], z) {
        if z == y {
          assert Below(g, rank, g[x].subs[i], x);
        } else if z != x {
          assert Below(g, rank, g[z].subs[i], z);
        }
      }
    }
  }

  // ---- delete ------------------------------------------------------------------------

  function Occurrences<X(==)>(s: seq<X>, x: X): nat {
    if s == [] then 0 else (if s[0] == x then 1 else 0) + Occurrences(s[1..], x)
  }

  lemma {:induction false} ReplaceOne<X>(s: seq<X>, x: X, y: X, i: nat)
    requires i < |s| && s[i] == x && x != y
    ensures Occurrences(s[i := y], x) == Occurrences(s, x) - 1
    ensures Redirect(s[i := y], x, y) == Redirect(s, x, y)
  {
    if i == 0 {
      assert s[i := y][1..] == s[1..];
    } else {
      assert s[i := y][1..] == s[1..][i - 1 := y];
      ReplaceOne(s[1..], x, y, i - 1);
    }
  }

  lemma {:induction false} NoneLeft<X>(s: seq<X>, x: X, y: X)
    requires x !in s
    ensures Redirect(s, x, y) == s
  {
    if s != [] {
      NoneLeft(s[1..], x, y);
    }
  }

  method IndexOf(s: seq<Translator>, x: Translator) returns (i: nat)
    requires x in s
    ensures i < |s| && s[i] == x && x !in s[..i]
  {
    i := 0;
    while s[i] != x
      invariant i < |s| && x !in s[..i] && x in s[i..]
      decreases |s| - i
    {
      i := i + 1;
    }
  }

  /** The inner loop of delete. */
  method RedirectSubvols(xl: Translator, victim: Translator, child: Translator)
    requires victim != child
    modifies xl`subvols
    ensures xl.subvols == Redirect(old(xl.subvols), victim, child)
  {
    while victim in xl.subvols
      invariant Redirect(xl.subvols, victim, child) == Redirect(old(xl.subvols), victim, child)
      decreases Occurrences(xl.subvols, victim)
    {
      var i := IndexOf(xl.subvols, victim);
      ReplaceOne(xl.subvols, victim, child, i);
      xl.subvols := xl.subvols[i := child];
    }
    NoneLeft(xl.subvols, victim, child);
  }

  /** delete(graph, victim): refuses a translator without exactly one subvolume; otherwise every
      translator of the graph uses the victim's subvolume where it used the victim. The victim
      must not be its own subvolume, which no acyclic graph allows. */
  method Delete(graph: map<string, Translator>, victim: Translator) returns (ok: bool)
    requires |victim.subvols| == 1 ==> victim.subvols[0] != victim
    modifies graph.Values`subvols
    ensures ok <==> old(|victim.subvols|) == 1
    ensures forall xl :: xl in graph.Values ==>
      xl.subvols == if ok then Redirect(old(xl.subvols), victim, old(victim.subvols[0])) else old(xl.subvols)
    ensures ok ==> forall xl :: xl in graph.Values ==> victim !in xl.subvols
  {
    ok := |victim.subvols| == 1;
    if !ok { return; }
    var child := victim.subvols[0];
    var rest := graph.Values;
    NoneLeft(victim.subvols, victim, child);
    while rest != {}
      invariant rest <= graph.Values && victim.subvols == old(victim.subvols)
      invariant forall xl :: xl in graph.Values && xl !in rest ==>
        xl.subvols == Redirect(old(xl.subvols), victim, child)
      invariant forall xl :: xl in rest ==> xl.subvols == old(xl.subvols)
      decreases rest
    {
      var xl :| xl in rest;
      RedirectSubvols(xl, victim, child);
      rest := rest - {xl};
    }
  }
}
