/**
  Laws of path resolution: it composes along "/", it reports the parent directory exactly
  when everything but the last component resolved, and where it departs from POSIX.
 */
module PathLaws {
  import opened Wrappers
  import opened PathResolve
  import opened PathReference

  // ---- tokens of a joined path -------------------------------------------------------

  lemma {:induction false} WordOfJoin(p: string, q: string)
    ensures Word(p + "/" + q) == Word(p)
  {
    if p != "" && p[0] != '/' {
      assert (p + "/" + q)[1..] == p[1..] + "/" + q;
      WordOfJoin(p[1..], q);
    }
  }

  lemma {:induction false} ComponentsOfJoin(p: string, q: string)
    ensures Components(p + "/" + q) == Components(p) + Components(q)
    decreases |p|
  {
    var j := p + "/" + q;
    if p == "" {
      assert j[1..] == q;
    } else if p[0] == '/' {
      assert j[1..] == p[1..] + "/" + q;
      ComponentsOfJoin(p[1..], q);
    } else {
      WordOfJoin(p, q);
      var w := Word(p);
      assert j[|w|..] == p[|w|..] + "/" + q;
      ComponentsOfJoin(p[|w|..], q);
      assert Components(j) == [w] + (Components(p[|w|..]) + Components(q));
    }
  }

  lemma {:induction false} WordOfName(name: string)
    requires forall i :: 0 <= i < |name| ==> name[i] != '/'
    ensures Word(name) == name
  {
    if name != "" {
      WordOfName(name[1..]);
    }
  }

  lemma PlainComponent(name: string)
    requires PlainName(name)
    ensures Components(name) == [name] && !Absolute(name)
  {
    WordOfName(name);
    assert name[|name|..] == "";
  }

  // ---- composition -------------------------------------------------------------------

  lemma WalkKind(ns: Namespace, cur: Ino, comps: seq<string>, follow: nat)
    requires ns.WellFormed() && comps != []
    ensures TrueKind(ns, Walk(ns, cur, comps, follow))
  {
    var _ := Simulates(ns, cur, comps, follow, []);
  }

  /** A type that is reported is the true one, in any namespace. */
  lemma {:induction false} ResolveReportsTrue(ns: Namespace, at: Option<Ino>, path: string, follow: nat)
    ensures var o := Resolve(ns, at, path, follow); o.Found? && o.kind.Some? ==> o.kind == Some(ns.KindOf(o.inode))
    decreases Budget(follow), 2, 0
  {
    if Components(path) != [] {
      WalkReportsTrue(ns, Start(ns, at, path), Components(path), follow);
    }
  }

  lemma {:induction false} WalkReportsTrue(ns: Namespace, cur: Ino, comps: seq<string>, follow: nat)
    requires comps != []
    ensures var o := Walk(ns, cur, comps, follow); o.Found? && o.kind.Some? ==> o.kind == Some(ns.KindOf(o.inode))
    decreases Budget(follow), 1, |comps|
  {
    var hop := Hop(ns, cur, comps[0], |comps| == 1, follow);
    HopReportsTrue(ns, cur, comps[0], |comps| == 1, follow);
    if |comps| > 1 && hop.Some? {
      WalkReportsTrue(ns, hop.value.0, comps[1..], follow);
    }
  }

  lemma {:induction false} HopReportsTrue(ns: Namespace, cur: Ino, name: string, last: bool, follow: nat)
    ensures var hop := Hop(ns, cur, name, last, follow);
      hop.Some? && hop.value.1.Some? ==> hop.value.1 == Some(ns.KindOf(hop.value.0))
    decreases Budget(follow), 0, 0
  {
    var c := ns.Component(cur, name);
    if c.Some? && ns.KindOf(c.value).Link? && follow <= SYMLINK_MAX_FOLLOW {
      ResolveReportsTrue(ns, Some(cur), ns.KindOf(c.value).target, follow + 1);
    }
  }

  /** A hop of the last component sees what the same hop sees earlier in a path, once links
      are followed everywhere. */
  lemma HopAnywhere(ns: Namespace, cur: Ino, name: string, follow: nat)
    requires follow > 0
    ensures Hop(ns, cur, name, true, follow) == Hop(ns, cur, name, false, follow)
  {
  }

  lemma {:induction false} WalkComposes(ns: Namespace, cur: Ino, a: seq<string>, b: seq<string>, follow: nat)
    requires ns.WellFormed() && follow > 0 && a != [] && b != []
    ensures Walk(ns, cur, a + b, follow) ==
      match Walk(ns, cur, a, follow) {
        case Found(_, _, i, _) => if ns.KindOf(i).Dir? then Walk(ns, i, b, follow) else Midway
        case _ => Midway
      }
    decreases |a|
  {
    HopAnywhere(ns, cur, a[0], follow);
    WalkKind(ns, cur, a, follow);
    assert (a + b)[0] == a[0] && (a + b)[1..] == a[1..] + b;
    if |a| == 1 {
      assert a[1..] + b == b;
    } else {
      var hop := Hop(ns, cur, a[0], false, follow);
      if hop.Some? && hop.value.1 == Some(Dir) {
        WalkComposes(ns, hop.value.0, a[1..], b, follow);
      }
    }
  }

  /** Following links, resolving p/q from `at` is resolving q from the directory p resolves to. */
  lemma ResolveComposes(ns: Namespace, at: Option<Ino>, p: string, q: string, follow: nat)
    requires ns.WellFormed() && follow > 0 && p != "" && !Absolute(q) && Components(q) != []
    requires Resolve(ns, at, p, follow).Found? && ns.KindOf(Resolve(ns, at, p, follow).inode).Dir?
    ensures Resolve(ns, at, p + "/" + q, follow) == Resolve(ns, Some(Resolve(ns, at, p, follow).inode), q, follow)
  {
    ComponentsOfJoin(p, q);
    assert Absolute(p + "/" + q) == Absolute(p);
    var start := Start(ns, at, p);
    if Components(p) == [] {
      assert Components(p + "/" + q) == Components(q);
    } else {
      WalkComposes(ns, start, Components(p), Components(q), follow);
    }
  }

  // ---- the parent directory ----------------------------------------------------------

  /** The last component is reached exactly when the directory in front of it can be entered,
      that is when the path with "." in place of the last component resolves; that directory is
      then reported, whether or not the last component exists. */
  lemma {:induction false} ParentIsPrefix(ns: Namespace, cur: Ino, dir: seq<string>, name: string, follow: nat)
    requires !ns.KindOf(cur).Link?
    ensures var o := Walk(ns, cur, dir + [name], follow);
      var d := Walk(ns, cur, dir + ["."], follow);
      match o {
        case Midway => !d.Found?
        case Missing(p, b) => d.Found? && d.inode == p && b == name
        case Found(p, b, _, _) => d.Found? && p == Some(d.inode) && b == Some(name)
      }
    decreases |dir|
  {
    if dir == [] {
      assert dir + [name] == [name] && dir + ["."] == ["."];
    } else {
      var a, b := dir + [name], dir + ["."];
      assert a[0] == b[0] == dir[0] && a[1..] == dir[1..] + [name] && b[1..] == dir[1..] + ["."];
      var hop := Hop(ns, cur, dir[0], false, follow);
      HopReportsTrue(ns, cur, dir[0], false, follow);
      if hop.Some? && hop.value.1 == Some(Dir) {
        ParentIsPrefix(ns, hop.value.0, dir[1..], name, follow);
      }
    }
  }

  /** The same for paths: p/name reports its parent, found or not, exactly when p/. resolves. */
  lemma ParentIsReported(ns: Namespace, at: Option<Ino>, p: string, name: string, follow: nat)
    requires p != "" && PlainName(name)
    requires !ns.KindOf(Start(ns, at, p)).Link?
    ensures var o := Resolve(ns, at, p + "/" + name, follow);
      var d := Resolve(ns, at, p + "/" + ".", follow);
      && (o.Midway? <==> !d.Found?)
      && (o.Missing? ==> o.dir == d.inode && o.base == name)
      && (o.Found? ==> o.parent == Some(d.inode) && o.name == Some(name))
  {
    ComponentsOfJoin(p, name);
    ComponentsOfJoin(p, ".");
    PlainComponent(name);
    PlainComponent(".");
    assert Absolute(p + "/" + name) == Absolute(p) == Absolute(p + "/" + ".");
    ParentIsPrefix(ns, Start(ns, at, p), Components(p), name, follow);
  }

  // ---- links -------------------------------------------------------------------------

  /** A link that points to itself never resolves, whatever budget is left. */
  lemma {:induction false} SelfLinkFails(ns: Namespace, d: Ino, name: string, follow: nat)
    requires ns.Component(d, name).Some? && ns.KindOf(ns.Component(d, name).value) == Link(name)
    requires PlainName(name) && follow > 0
    ensures Walk(ns, d, [name], follow) == Missing(d, name)
    decreases Budget(follow)
  {
    if follow <= SYMLINK_MAX_FOLLOW {
      PlainComponent(name);
      SelfLinkFails(ns, d, name, follow + 1);
      assert Resolve(ns, Some(d), name, follow + 1) == Missing(d, name);
    }
    assert Hop(ns, d, name, true, follow) == None;
  }

  /** Where the code departs from the reference: a link in the middle of a path whose target
      has no components stops the walk, unless the target is exactly "/". */
  lemma SlashTargetMidway(ns: Namespace, cur: Ino, name: string, rest: seq<string>, follow: nat)
    requires rest != [] && follow <= SYMLINK_MAX_FOLLOW && ns.KindOf(ns.root).Dir?
    requires ns.Component(cur, name).Some? && ns.KindOf(ns.Component(cur, name).value).Link?
    requires Components(ns.KindOf(ns.Component(cur, name).value).target) == []
    ensures Walk(ns, cur, [name] + rest, follow)
      == if ns.KindOf(ns.Component(cur, name).value).target == "/" then Walk(ns, ns.root, rest, follow) else Midway
  {
    var target := ns.KindOf(ns.Component(cur, name).value).target;
    var o := Resolve(ns, Some(cur), target, follow + 1);
    assert o == Found(None, None, Start(ns, Some(cur), target), if target == "/" then Some(Dir) else None);
    assert Hop(ns, cur, name, false, follow) == Some((o.inode, o.kind));
    assert ([name] + rest)[1..] == rest;
  }

  /** A concrete case: with a link l -> "//" in the root, the reference resolves "l/f" and the
      code does not. */
  lemma DoubleSlashTarget()
    ensures var ns := Namespace(0, map[0 := Dir, 1 := Link("//"), 2 := Other],
                                map[(0, "l") := 1, (0, "f") := 2], map[]);
      Resolve(ns, None, "l/f", 1) == Midway && ResolvesTo(ns, None, "l/f", 1, 2)
  {
    var ns := Namespace(0, map[0 := Dir, 1 := Link("//"), 2 := Other], map[(0, "l") := 1, (0, "f") := 2], map[]);
    ConcretePaths();
    SlashTargetMidway(ns, 0, "l", ["f"], 1);
    assert ["l"] + ["f"] == ["l", "f"];
    DoubleSlashReference(ns);
  }

  lemma DoubleSlashReference(ns: Namespace)
    requires ns == Namespace(0, map[0 := Dir, 1 := Link("//"), 2 := Other], map[(0, "l") := 1, (0, "f") := 2], map[])
    ensures ResolvesTo(ns, None, "l/f", 1, 2)
  {
    ConcretePaths();
    var m := Begin(ns, None, "l/f", 1);
    assert Tag(["f"], 1) == [Item("f", 1)] && Tag(["l", "f"], 1) == [Item("l", 1)] + Tag(["l", "f"][1..], 1);
    assert ["l", "f"][1..] == ["f"];
    assert m == At(0, [Item("l", 1), Item("f", 1)]);
    var m1 := Step(ns, m);
    assert m1 == At(0, [Item("f", 1)]);
    var m2 := Step(ns, m1);
    assert m2 == At(2, []);
    assert Step(ns, m2) == Arrived(2);
    assert Steps(ns, 3, m) == Steps(ns, 2, m1) == Steps(ns, 1, m2) == Steps(ns, 0, Arrived(2));
  }

  lemma ConcretePaths()
    ensures Components("l/f") == ["l", "f"] && Components("//") == []
  {
    assert "//"[1..] == "/" && "/"[1..] == "";
    var p := "l/f";
    assert p[1..] == "/f" && "/f"[1..] == "f" && "f"[1..] == "";
    assert Word("f") == "f" && Components("f") == ["f"] + Components("f"[1..]);
    assert Word(p) == "l";
  }
}
