/**
  Path resolution of libgfapi: priv_glfs_resolve_at and glfs_resolve_component over a fixed
  namespace, in which a lookup succeeds exactly when the entry exists.
 */
module PathResolve {
  import opened Wrappers

  const SYMLINK_MAX_FOLLOW: nat := 2048

  type Ino = nat

  datatype Kind = Dir | Link(target: string) | Other

  datatype Namespace = Namespace(
    root: Ino, kinds: map<Ino, Kind>, entries: map<(Ino, string), Ino>, parents: map<Ino, Ino>)
  {
    function KindOf(i: Ino): Kind {
      if i in kinds then kinds[i] else Other
    }

    /** glfs_resolve_component: the inode that `name` names in directory `d`. */
    function Component(d: Ino, name: string): Option<Ino> {
      if d == root && name == ".." then Some(d)
      else if name == "." then Some(d)
      else if name == ".." then (if d in parents then Some(parents[d]) else None)
      else if (d, name) in entries then Some(entries[(d, name)])
      else None
    }

    /** The root is a directory, and no link points to a path without components other than "/". */
    predicate WellFormed() {
      KindOf(root).Dir? && forall i :: i in kinds && kinds[i].Link? ==> GoodTarget(kinds[i].target)
    }
  }

  predicate GoodTarget(path: string) {
    path == "/" || Components(path) != []
  }

  predicate Absolute(path: string) {
    path != "" && path[0] == '/'
  }

  // ---- strtok_r on "/" ---------------------------------------------------------------

  /** The characters of `path` up to the first slash. */
  function Word(path: string): (w: string)
    ensures |w| <= |path|
    ensures path != "" && path[0] != '/' ==> w != ""
  {
    if path == "" || path[0] == '/' then "" else [path[0]] + Word(path[1..])
  }

  /** The tokens strtok_r yields: the non-empty pieces between slashes. */
  function Components(path: string): seq<string>
    decreases |path|
  {
    if path == "" then []
    else if path[0] == '/' then Components(path[1..])
    else [Word(path)] + Components(path[|Word(path)|..])
  }

  /** A name that can be a single component. */
  predicate PlainName(name: string) {
    name != "" && forall i :: 0 <= i < |name| ==> name[i] != '/'
  }

  lemma {:induction false} WordHasNoSlash(path: string)
    ensures forall i :: 0 <= i < |Word(path)| ==> Word(path)[i] != '/'
  {
    if path != "" && path[0] != '/' {
      WordHasNoSlash(path[1..]);
    }
  }

  lemma {:induction false} ComponentsArePlain(path: string, i: nat)
    requires i < |Components(path)|
    ensures PlainName(Components(path)[i])
    decreases |path|
  {
    if path[0] == '/' {
      ComponentsArePlain(path[1..], i);
    } else {
      WordHasNoSlash(path);
      if i > 0 {
        ComponentsArePlain(path[|Word(path)|..], i - 1);
      }
    }
  }

  // ---- what the code computes --------------------------------------------------------

  /** What the caller of priv_glfs_resolve_at sees. */
  datatype Outcome =
    | Midway                                          // failed early: loc is left alone
    | Missing(dir: Ino, base: string)                 // only the last component failed
    | Found(parent: Option<Ino>, name: Option<string>, inode: Ino, kind: Option<Kind>)

  function Budget(follow: nat): nat {
    if follow > SYMLINK_MAX_FOLLOW then 0 else SYMLINK_MAX_FOLLOW + 1 - follow
  }

  function Start(ns: Namespace, at: Option<Ino>, path: string): Ino {
    if at.Some? && !Absolute(path) then at.value else ns.root
  }

  /** priv_glfs_resolve_at. The type of the result stays unknown (a zeroed iatt) when there is
      no component to look up, except for the path "/" itself. */
  function Resolve(ns: Namespace, at: Option<Ino>, path: string, follow: nat): Outcome
    decreases Budget(follow), 2, 0
  {
    var start := Start(ns, at, path);
    var comps := Components(path);
    if comps == [] then
      Found(None, None, start, if path == "/" then Some(ns.KindOf(ns.root)) else None)
    else
      Walk(ns, start, comps, follow)
  }

  /** The component loop, standing at directory `cur`. */
  function Walk(ns: Namespace, cur: Ino, comps: seq<string>, follow: nat): Outcome
    requires comps != []
    decreases Budget(follow), 1, |comps|
  {
    var last := |comps| == 1;
    match Hop(ns, cur, comps[0], last, follow)
    case None => if last then Missing(cur, comps[0]) else Midway
    case Some((i, k)) =>
      if last then Found(Some(cur), Some(comps[0]), i, k)
      else if k == Some(Dir) then Walk(ns, i, comps[1..], follow)
      else Midway
  }

  /** One component, with the symlink it may be resolved away. */
  function Hop(ns: Namespace, cur: Ino, name: string, last: bool, follow: nat): Option<(Ino, Option<Kind>)>
    decreases Budget(follow), 0, 0
  {
    match ns.Component(cur, name)
    case None => None
    case Some(i) =>
      var k := ns.KindOf(i);
      if k.Link? && (!last || follow > 0) then
        if follow > SYMLINK_MAX_FOLLOW then None
        else
          match Resolve(ns, Some(cur), k.target, follow + 1)
          case Found(_, _, j, kj) => Some((j, kj))
          case _ => None
      else Some((i, Some(k)))
  }

  // ---- the code ----------------------------------------------------------------------

  datatype Loc = Loc(parent: Option<Ino>, name: Option<string>, inode: Option<Ino>)

  const EMPTY_LOC: Loc := Loc(None, None, None)

  /** The return value and loc that stand for an outcome. */
  predicate Reports(o: Outcome, ret: int, loc: Loc, kind: Option<Kind>) {
    match o
    case Midway => ret == -1 && loc == EMPTY_LOC
    case Missing(d, b) => ret == -1 && loc == Loc(Some(d), Some(b), None)
    case Found(p, n, i, k) => ret == 0 && loc == Loc(p, n, Some(i)) && kind == k
  }

  /** The loop of priv_glfs_resolve_at. It terminates on every namespace, cyclic links
      included: the recursive call has a smaller symlink budget. */
  method ResolveAt(ns: Namespace, at: Option<Ino>, path: string, follow: nat)
    returns (ret: int, loc: Loc, kind: Option<Kind>)
    ensures Reports(Resolve(ns, at, path, follow), ret, loc, kind)
    decreases Budget(follow)
  {
    ret, loc, kind := -1, EMPTY_LOC, None;
    var comps := Components(path);
    var parent: Option<Ino> := None;
    var inode: Option<Ino>;
    if at.Some? && !Absolute(path) {
      inode := at;
    } else {
      inode := Some(ns.root);
      if path == "/" {
        kind := Some(ns.KindOf(ns.root));
      }
    }
    var i := 0;
    while i < |comps|
      invariant 0 <= i <= |comps|
      invariant inode.Some?
      invariant i == 0 ==> parent.None?
      invariant i < |comps| ==> Resolve(ns, at, path, follow) == Walk(ns, inode.value, comps[i..], follow)
      invariant comps == [] ==> Resolve(ns, at, path, follow) == Found(None, None, inode.value, kind)
      invariant i == |comps| ==> comps == []
    {
      var component := comps[i];
      var more := i + 1 < |comps|;
      parent := inode;
      ghost var hop := Hop(ns, parent.value, component, !more, follow);
      inode := ns.Component(parent.value, component);
      if inode.None? {
        ret := -1;
        loc := if more then EMPTY_LOC else Loc(parent, Some(component), None);
        return;
      }
      kind := Some(ns.KindOf(inode.value));
      if kind.value.Link? && (more || follow > 0) {
        if follow > SYMLINK_MAX_FOLLOW {
          ret := -1;
          loc := if more then EMPTY_LOC else Loc(parent, Some(component), None);
          return;
        }
        var target := kind.value.target;
        inode := None;
        var symRet, symLoc, symKind := ResolveAt(ns, parent, target, follow + 1);
        ret := symRet;
        if symRet == 0 {
          inode := symLoc.inode;
          kind := symKind;
        }
      }
      assert hop == if inode.Some? then Some((inode.value, kind)) else None;
      assert comps[i..][1..] == comps[i + 1..];
      if !more {
        loc := Loc(parent, Some(component), inode);
        ret := if inode.Some? then 0 else -1;
        return;
      }
      if kind != Some(Dir) {
        inode := None;
        ret := -1;
        return;
      }
      i := i + 1;
    }
    loc := Loc(None, None, inode);
    ret := 0;
  }
}
