/**
  What single components mean: entries, ".", "..", links by one name, and the leading slash.
 */
module PathDots {
  import opened Wrappers
  import opened PathResolve
  import opened PathLaws

  /** A name that is looked up in the directory itself. */
  predicate EntryName(name: string) {
    PlainName(name) && name != "." && name != ".."
  }

  /** A directory that is an entry has the directory it is in as its parent. */
  predicate ParentsAgree(ns: Namespace) {
    forall e :: e in ns.entries && ns.KindOf(ns.entries[e]).Dir? ==> ParentIs(ns, ns.entries[e], e.0)
  }

  predicate ParentIs(ns: Namespace, i: Ino, d: Ino) {
    i != ns.root && i in ns.parents && ns.parents[i] == d
  }

  // ---- entries and links -------------------------------------------------------------

  /** A name that is not a link resolves to its entry, and a name without an entry is missing. */
  lemma EntryResolves(ns: Namespace, d: Ino, name: string, follow: nat)
    requires EntryName(name)
    requires (d, name) in ns.entries ==> !ns.KindOf(ns.entries[(d, name)]).Link?
    ensures Resolve(ns, Some(d), name, follow) ==
      if (d, name) in ns.entries
      then Found(Some(d), Some(name), ns.entries[(d, name)], Some(ns.KindOf(ns.entries[(d, name)])))
      else Missing(d, name)
  {
    PlainComponent(name);
    assert Walk(ns, d, [name], follow)
      == if (d, name) in ns.entries
         then Found(Some(d), Some(name), ns.entries[(d, name)], Some(ns.KindOf(ns.entries[(d, name)])))
         else Missing(d, name);
  }

  /** A link to a name is resolved in the directory that the link is in, as long as no more than 2048 links
      have been followed; a link to "/" and a name, in the root. */
  lemma LinkResolves(ns: Namespace, d: Ino, name: string, to: string, fromRoot: bool, follow: nat)
    requires EntryName(name) && EntryName(to) && follow > 0
    requires (d, name) in ns.entries && ns.KindOf(ns.entries[(d, name)]) == Link(if fromRoot then "/" + to else to)
    requires var home := if fromRoot then ns.root else d;
      (home, to) in ns.entries && !ns.KindOf(ns.entries[(home, to)]).Link?
    ensures var i := ns.entries[(if fromRoot then ns.root else d, to)];
      Resolve(ns, Some(d), name, follow)
        == if follow <= 2048 then Found(Some(d), Some(name), i, Some(ns.KindOf(i))) else Missing(d, name)
  {
    PlainComponent(name);
    if follow <= 2048 {
      if fromRoot {
        SlashIsFromRoot(ns, Some(d), to, follow + 1);
        EntryResolves(ns, ns.root, to, follow + 1);
      } else {
        EntryResolves(ns, d, to, follow + 1);
      }
      var i := ns.entries[(if fromRoot then ns.root else d, to)];
      assert Hop(ns, d, name, true, follow) == Some((i, Some(ns.KindOf(i))));
    } else {
      assert Hop(ns, d, name, true, follow) == None;
    }
    assert Resolve(ns, Some(d), name, follow) == Walk(ns, d, [name], follow);
  }

  /** A leading slash begins at the root, and so does a path that is given no directory. */
  lemma SlashIsFromRoot(ns: Namespace, at: Option<Ino>, q: string, follow: nat)
    requires PlainName(q) || Components(q) != []
    ensures Resolve(ns, at, "/" + q, follow) == Resolve(ns, Some(ns.root), q, follow)
    ensures Resolve(ns, None, q, follow) == Resolve(ns, Some(ns.root), q, follow)
  {
    if PlainName(q) {
      PlainComponent(q);
    }
    assert ("/" + q)[1..] == q;
  }

  // ---- dots --------------------------------------------------------------------------

  lemma {:induction false} WalkUp(ns: Namespace, cur: Ino, dir: seq<string>, name: string, follow: nat)
    requires ParentsAgree(ns) && !ns.KindOf(cur).Link? && EntryName(name)
    requires var at := Walk(ns, cur, dir + ["."], follow);
      at.Found? && (at.inode, name) in ns.entries && ns.KindOf(ns.entries[(at.inode, name)]).Dir?
    ensures var d := Walk(ns, cur, dir + ["."], follow).inode;
      Walk(ns, cur, dir + [name, ".."], follow)
        == Found(Some(ns.entries[(d, name)]), Some(".."), d, Some(ns.KindOf(d)))
    decreases |dir|
  {
    var down, here := dir + [name, ".."], dir + ["."];
    if dir == [] {
      assert down == [name, ".."] && here == ["."];
      var c := ns.entries[(cur, name)];
      assert ParentIs(ns, c, cur);
      assert Hop(ns, cur, name, false, follow) == Some((c, Some(Dir)));
      assert Hop(ns, c, "..", true, follow) == Some((cur, Some(ns.KindOf(cur))));
      assert Walk(ns, cur, here, follow).inode == cur;
      assert down[1..] == [".."];
    } else {
      assert down[0] == here[0] == dir[0] && down[1..] == dir[1..] + [name, ".."] && here[1..] == dir[1..] + ["."];
      var hop := Hop(ns, cur, dir[0], false, follow);
      HopReportsTrue(ns, cur, dir[0], false, follow);
      WalkUp(ns, hop.value.0, dir[1..], name, follow);
    }
  }

  /** Where the parents agree with the entries, p/name/.. is the directory p when name is a directory in it. */
  lemma DotDotUndoes(ns: Namespace, at: Option<Ino>, p: string, name: string, follow: nat)
    requires ParentsAgree(ns) && p != "" && EntryName(name) && !ns.KindOf(Start(ns, at, p)).Link?
    requires var here := Resolve(ns, at, p + "/" + ".", follow);
      here.Found? && (here.inode, name) in ns.entries && ns.KindOf(ns.entries[(here.inode, name)]).Dir?
    ensures var d := Resolve(ns, at, p + "/" + ".", follow).inode;
      Resolve(ns, at, p + "/" + name + "/" + "..", follow)
        == Found(Some(ns.entries[(d, name)]), Some(".."), d, Some(ns.KindOf(d)))
  {
    ComponentsOfJoin(p, ".");
    ComponentsOfJoin(p + "/" + name, "..");
    ComponentsOfJoin(p, name);
    PlainComponent(".");
    PlainComponent("..");
    PlainComponent(name);
    assert Components(p) + [name] + [".."] == Components(p) + [name, ".."];
    WalkUp(ns, Start(ns, at, p), Components(p), name, follow);
  }

  /** So when links are well formed and followed, if p resolves to a directory d and d has the directory name,
      then p/name/.. resolves to d. */
  lemma DotDotReturns(ns: Namespace, at: Option<Ino>, p: string, name: string, follow: nat)
    requires ns.WellFormed() && ParentsAgree(ns) && follow > 0
    requires p != "" && EntryName(name) && !ns.KindOf(Start(ns, at, p)).Link?
    requires var here := Resolve(ns, at, p, follow);
      && here.Found? && ns.KindOf(here.inode).Dir?
      && (here.inode, name) in ns.entries && ns.KindOf(ns.entries[(here.inode, name)]).Dir?
    ensures var o := Resolve(ns, at, p + "/" + name + "/" + "..", follow);
      o.Found? && o.inode == Resolve(ns, at, p, follow).inode && o.kind == Some(Dir)
  {
    var d := Resolve(ns, at, p, follow).inode;
    PlainComponent(".");
    ResolveComposes(ns, at, p, ".", follow);
    assert Walk(ns, d, ["."], follow) == Found(Some(d), Some("."), d, Some(Dir));
    DotDotUndoes(ns, at, p, name, follow);
  }

  /** From the root, no number of "." and ".." leads away from it. */
  lemma {:induction false} DotsStayAtRoot(ns: Namespace, comps: seq<string>, follow: nat)
    requires ns.KindOf(ns.root).Dir? && comps != []
    requires forall i :: 0 <= i < |comps| ==> comps[i] == "." || comps[i] == ".."
    ensures Walk(ns, ns.root, comps, follow) == Found(Some(ns.root), Some(comps[|comps| - 1]), ns.root, Some(Dir))
  {
    if |comps| > 1 {
      DotsStayAtRoot(ns, comps[1..], follow);
    }
  }
}
