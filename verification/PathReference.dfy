/**
  The reference for path resolution: the splicing machine of section 4.13 (Pathname
  Resolution) of the POSIX.1-2017 Base Definitions, in which the contents of a symbolic link
  are put in front of the remaining components. It has no recursion on links; the nesting
  depth that the code bounds is a level carried by each component.
 */
module PathReference {
  import opened Wrappers
  import opened PathResolve

  datatype Item = Item(name: string, level: nat)

  datatype Machine = At(cur: Ino, todo: seq<Item>) | Arrived(ino: Ino) | Failed

  function Tag(comps: seq<string>, level: nat): (r: seq<Item>)
    ensures |r| == |comps|
  {
    if comps == [] then [] else [Item(comps[0], level)] + Tag(comps[1..], level)
  }

  function Enter(ns: Namespace, i: Ino, rest: seq<Item>): Machine {
    if rest == [] || ns.KindOf(i).Dir? then At(i, rest) else Failed
  }

  function Step(ns: Namespace, m: Machine): Machine {
    match m
    case Arrived(_) => m
    case Failed => m
    case At(cur, todo) =>
      if todo == [] then Arrived(cur)
      else
        var item, rest := todo[0], todo[1..];
        match ns.Component(cur, item.name)
        case None => Failed
        case Some(i) =>
          var k := ns.KindOf(i);
          if k.Link? && (rest != [] || item.level > 0) then
            if item.level > SYMLINK_MAX_FOLLOW then Failed
            else At(Start(ns, Some(cur), k.target), Tag(Components(k.target), item.level + 1) + rest)
          else Enter(ns, i, rest)
  }

  function Steps(ns: Namespace, k: nat, m: Machine): Machine
    decreases k
  {
    if k == 0 then m else Steps(ns, k - 1, Step(ns, m))
  }

  function Begin(ns: Namespace, at: Option<Ino>, path: string, follow: nat): Machine {
    At(Start(ns, at, path), Tag(Components(path), follow))
  }

  /** The reference resolves the path to `i`. */
  ghost predicate ResolvesTo(ns: Namespace, at: Option<Ino>, path: string, follow: nat, i: Ino) {
    exists k: nat :: Steps(ns, k, Begin(ns, at, path, follow)) == Arrived(i)
  }

  // ---- runs of the machine -----------------------------------------------------------

  lemma {:induction false} StepsAdd(ns: Namespace, a: nat, b: nat, m: Machine)
    ensures Steps(ns, a + b, m) == Steps(ns, b, Steps(ns, a, m))
    decreases a
  {
    if a > 0 {
      StepsAdd(ns, a - 1, b, Step(ns, m));
    }
  }

  lemma {:induction false} HaltedStays(ns: Namespace, k: nat, m: Machine)
    requires m.Arrived? || m.Failed?
    ensures Steps(ns, k, m) == m
    decreases k
  {
    if k > 0 {
      HaltedStays(ns, k - 1, m);
    }
  }

  /** A run that halts halts in one way only. */
  lemma HaltsOnce(ns: Namespace, m: Machine, a: nat, b: nat)
    requires Steps(ns, a, m).Arrived? || Steps(ns, a, m).Failed?
    requires Steps(ns, b, m).Arrived? || Steps(ns, b, m).Failed?
    ensures Steps(ns, a, m) == Steps(ns, b, m)
  {
    if a <= b {
      StepsAdd(ns, a, b - a, m);
      HaltedStays(ns, b - a, Steps(ns, a, m));
    } else {
      StepsAdd(ns, b, a - b, m);
      HaltedStays(ns, a - b, Steps(ns, b, m));
    }
  }

  // ---- the code follows the machine --------------------------------------------------

  /** Where the machine stands once the components of `o` are used up and `rest` is left. */
  function Landing(ns: Namespace, o: Outcome, rest: seq<Item>): Machine {
    match o
    case Found(_, _, i, _) => Enter(ns, i, rest)
    case _ => Failed
  }

  lemma {:induction false} TagTail(comps: seq<string>, level: nat, rest: seq<Item>)
    requires comps != []
    ensures (Tag(comps, level) + rest)[0] == Item(comps[0], level)
    ensures (Tag(comps, level) + rest)[1..] == Tag(comps[1..], level) + rest
  {
    assert Tag(comps, level) == [Item(comps[0], level)] + Tag(comps[1..], level);
  }

  /** Everything the code finds has its true type. */
  predicate TrueKind(ns: Namespace, o: Outcome) {
    o.Found? ==> o.kind == Some(ns.KindOf(o.inode))
  }

  /** If `name` names a link in `d`, its target is one the code can go through. */
  predicate GoodName(ns: Namespace, d: Ino, name: string) {
    match ns.Component(d, name)
    case None => true
    case Some(i) => ns.KindOf(i).Link? ==> GoodTarget(ns.KindOf(i).target)
  }

  /** Every link that a component can name in an inode that is not itself a link has such a target. */
  ghost predicate GoodLinks(ns: Namespace) {
    forall d: Ino, name: string :: PlainName(name) && !ns.KindOf(d).Link? ==> GoodName(ns, d, name)
  }

  predicate AllPlain(comps: seq<string>) {
    forall i :: 0 <= i < |comps| ==> PlainName(comps[i])
  }

  /** The walk along `comps` from `cur` meets only links with such a target. */
  ghost predicate Passable(ns: Namespace, cur: Ino, comps: seq<string>) {
    && ns.KindOf(ns.root).Dir?
    && (ns.WellFormed() || (GoodLinks(ns) && !ns.KindOf(cur).Link? && AllPlain(comps)))
  }

  lemma PassableTarget(ns: Namespace, cur: Ino, comps: seq<string>, target: string)
    requires Passable(ns, cur, comps)
    ensures Passable(ns, Start(ns, Some(cur), target), Components(target))
  {
    forall i | 0 <= i < |Components(target)| ensures PlainName(Components(target)[i]) {
      ComponentsArePlain(target, i);
    }
  }

  lemma PassableName(ns: Namespace, cur: Ino, comps: seq<string>)
    requires Passable(ns, cur, comps) && comps != []
    ensures GoodName(ns, cur, comps[0])
  {
  }

  lemma PassableOn(ns: Namespace, cur: Ino, comps: seq<string>, i: Ino)
    requires Passable(ns, cur, comps) && comps != [] && ns.KindOf(i).Dir?
    ensures Passable(ns, i, comps[1..])
  {
  }

  lemma {:induction false} FollowLink(ns: Namespace, cur: Ino, comps: seq<string>, follow: nat, rest: seq<Item>)
    returns (k: nat)
    requires Passable(ns, cur, comps) && comps != [] && follow <= SYMLINK_MAX_FOLLOW
    requires ns.Component(cur, comps[0]).Some? && ns.KindOf(ns.Component(cur, comps[0]).value).Link?
    requires |comps| > 1 || rest != [] || follow > 0
    ensures var o := Resolve(ns, Some(cur), ns.KindOf(ns.Component(cur, comps[0]).value).target, follow + 1);
      && Steps(ns, k, At(cur, Tag(comps, follow) + rest)) == Landing(ns, o, Tag(comps[1..], follow) + rest)
      && TrueKind(ns, o)
    decreases Budget(follow), 0, 0
  {
    var target := ns.KindOf(ns.Component(cur, comps[0]).value).target;
    var rest1 := Tag(comps[1..], follow) + rest;
    TagTail(comps, follow, rest);
    var start, inner := Start(ns, Some(cur), target), Components(target);
    PassableTarget(ns, cur, comps, target);
    PassableName(ns, cur, comps);
    assert Step(ns, At(cur, Tag(comps, follow) + rest)) == At(start, Tag(inner, follow + 1) + rest1);
    if inner == [] {
      assert Tag(inner, follow + 1) + rest1 == rest1;
      k := 1;
    } else {
      var n := Simulates(ns, start, inner, follow + 1, rest1);
      k := n + 1;
    }
  }

  /** The machine reaches, in some number of steps, exactly where the component loop ends. */
  lemma {:induction false} Simulates(ns: Namespace, cur: Ino, comps: seq<string>, follow: nat, rest: seq<Item>)
    returns (k: nat)
    requires Passable(ns, cur, comps) && comps != [] && (rest == [] || follow > 0)
    ensures Steps(ns, k, At(cur, Tag(comps, follow) + rest)) == Landing(ns, Walk(ns, cur, comps, follow), rest)
    ensures TrueKind(ns, Walk(ns, cur, comps, follow))
    decreases Budget(follow), 1, |comps|
  {
    var m := At(cur, Tag(comps, follow) + rest);
    var rest1 := Tag(comps[1..], follow) + rest;
    TagTail(comps, follow, rest);
    var last := |comps| == 1;
    assert rest1 == [] <==> last && rest == [];
    var hop := Hop(ns, cur, comps[0], last, follow);
    var c := ns.Component(cur, comps[0]);
    if c.Some? && ns.KindOf(c.value).Link? && (!last || follow > 0) && follow <= SYMLINK_MAX_FOLLOW {
      k := FollowLink(ns, cur, comps, follow, rest);
    } else {
      k := 1;
      assert Steps(ns, 1, m) == Step(ns, m);
    }
    assert Steps(ns, k, m) == if hop.Some? then Enter(ns, hop.value.0, rest1) else Failed;
    if last {
      assert rest1 == rest;
    } else if hop.Some? && hop.value.1 == Some(Dir) {
      PassableOn(ns, cur, comps, hop.value.0);
      var n := Simulates(ns, hop.value.0, comps[1..], follow, rest);
      StepsAdd(ns, k, n, m);
      k := k + n;
    }
  }

  /** The code finds inode `i` exactly when the reference resolves the path to `i`. */
  ghost predicate Agrees(ns: Namespace, at: Option<Ino>, path: string, follow: nat, i: Ino) {
    (Resolve(ns, at, path, follow).Found? && Resolve(ns, at, path, follow).inode == i)
    <==> ResolvesTo(ns, at, path, follow, i)
  }

  lemma PassableAgrees(ns: Namespace, at: Option<Ino>, path: string, follow: nat, i: Ino)
    requires Passable(ns, Start(ns, at, path), Components(path))
    ensures Agrees(ns, at, path, follow, i)
  {
    var m := Begin(ns, at, path, follow);
    var o := Resolve(ns, at, path, follow);
    var comps := Components(path);
    assert m.todo + [] == m.todo;
    var k: nat := 0;
    if comps != [] {
      k := Simulates(ns, m.cur, comps, follow, []);
    }
    assert Steps(ns, k, m) == Landing(ns, o, []);
    StepsAdd(ns, k, 1, m);
    var z := Steps(ns, k + 1, m);
    assert Steps(ns, 1, Steps(ns, k, m)) == Step(ns, Steps(ns, k, m));
    assert z == if o.Found? then Arrived(o.inode) else Failed;
    if ResolvesTo(ns, at, path, follow, i) {
      var n: nat :| Steps(ns, n, m) == Arrived(i);
      HaltsOnce(ns, m, k + 1, n);
    }
  }

  /** With well-formed link targets the code and the reference agree on every path from anywhere. */
  lemma ResolveIsReference(ns: Namespace, at: Option<Ino>, path: string, follow: nat, i: Ino)
    requires ns.WellFormed()
    ensures (Resolve(ns, at, path, follow).Found? && Resolve(ns, at, path, follow).inode == i)
        <==> ResolvesTo(ns, at, path, follow, i)
  {
    PassableAgrees(ns, at, path, follow, i);
  }
}
