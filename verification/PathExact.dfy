/**
  Exactly when path resolution and the reference agree: the links that can be named must have a
  target that is "/" or has a component.
 */
module PathExact {
  import opened Wrappers
  import opened PathResolve
  import opened PathReference
  import opened PathLaws

  /** What to look up behind a link with target `t` to tell the two apart. */
  function Detour(name: string, t: string): string {
    if Absolute(t) then "." else name
  }

  /** `name` names in `d` a link whose target is neither "/" nor has a component. */
  predicate BadName(ns: Namespace, d: Ino, name: string, t: string) {
    && ns.KindOf(ns.root).Dir? && PlainName(name) && !GoodTarget(t)
    && ns.Component(d, name).Some? && ns.KindOf(ns.Component(d, name).value) == Link(t)
  }

  lemma DetourComponents(name: string, t: string)
    requires PlainName(name)
    ensures Components(name + "/" + Detour(name, t)) == [name, Detour(name, t)]
    ensures !Absolute(name + "/" + Detour(name, t))
  {
    var q := Detour(name, t);
    ComponentsOfJoin(name, q);
    PlainComponent(name);
    PlainComponent(q);
    assert [name] + [q] == [name, q];
  }

  lemma DetourStops(ns: Namespace, d: Ino, name: string, t: string)
    requires BadName(ns, d, name, t)
    ensures Resolve(ns, Some(d), name + "/" + Detour(name, t), 1) == Midway
  {
    DetourComponents(name, t);
    var q := Detour(name, t);
    SlashTargetMidway(ns, d, name, [q], 1);
    assert [name] + [q] == [name, q];
  }

  lemma TagOne(q: string, level: nat)
    ensures Tag([q], level) == [Item(q, level)]
  {
  }

  /** The reference goes through the link and on to where its target points. */
  lemma DetourArrives(ns: Namespace, d: Ino, name: string, t: string)
    requires BadName(ns, d, name, t)
    ensures ResolvesTo(ns, Some(d), name + "/" + Detour(name, t), 1, Start(ns, Some(d), t))
  {
    DetourComponents(name, t);
    var path, q, to := name + "/" + Detour(name, t), Detour(name, t), Start(ns, Some(d), t);
    var m := Begin(ns, Some(d), path, 1);
    TagTail([name, q], 1, []);
    TagOne(q, 1);
    assert [name, q][1..] == [q];
    assert m == At(d, [Item(name, 1), Item(q, 1)]);
    var m1 := Step(ns, m);
    assert m1 == At(to, [Item(q, 1)]) by {
      assert Tag(Components(t), 2) + [Item(q, 1)] == [Item(q, 1)];
    }
    var m2 := Step(ns, m1);
    assert m2 == At(to, []) by {
      assert Tag(Components(t), 2) + [] == [];
    }
    assert Step(ns, m2) == Arrived(to);
    assert Steps(ns, 3, m) == Steps(ns, 2, m1) == Steps(ns, 1, m2) == Steps(ns, 0, Arrived(to));
  }

  /** Wherever a link with such a target can be named, some path is resolved by the reference and
      not by the code. */
  lemma BadTargetDisagrees(ns: Namespace, d: Ino, name: string, t: string)
    requires BadName(ns, d, name, t)
    ensures !Agrees(ns, Some(d), name + "/" + Detour(name, t), 1, Start(ns, Some(d), t))
  {
    DetourStops(ns, d, name, t);
    DetourArrives(ns, d, name, t);
  }

  // ---- the exact condition -----------------------------------------------------------

  /** The two agree on every path from `at`. */
  ghost predicate AgreesFrom(ns: Namespace, at: Option<Ino>) {
    forall path: string, follow: nat, i: Ino :: Agrees(ns, at, path, follow, i)
  }

  predicate StartsAtLink(ns: Namespace, at: Option<Ino>) {
    at.Some? && ns.KindOf(at.value).Link?
  }

  lemma GoodLinksAgree(ns: Namespace, at: Option<Ino>)
    requires ns.KindOf(ns.root).Dir? && GoodLinks(ns) && !StartsAtLink(ns, at)
    ensures AgreesFrom(ns, at)
  {
    forall path: string, follow: nat, i: Ino ensures Agrees(ns, at, path, follow, i) {
      forall k | 0 <= k < |Components(path)| ensures PlainName(Components(path)[k]) {
        ComponentsArePlain(path, k);
      }
      PassableAgrees(ns, at, path, follow, i);
    }
  }

  /** From every start that is not itself a link, the code and the reference agree on all paths if and
      only if every link that can be named has a target that is "/" or has a component. */
  lemma AgreesExactly(ns: Namespace)
    requires ns.KindOf(ns.root).Dir?
    ensures (forall at :: !StartsAtLink(ns, at) ==> AgreesFrom(ns, at)) <==> GoodLinks(ns)
  {
    if GoodLinks(ns) {
      forall at | !StartsAtLink(ns, at) ensures AgreesFrom(ns, at) {
        GoodLinksAgree(ns, at);
      }
    } else {
      var d: Ino, name: string :| PlainName(name) && !ns.KindOf(d).Link? && !GoodName(ns, d, name);
      BadTargetDisagrees(ns, d, name, ns.KindOf(ns.Component(d, name).value).target);
      assert !StartsAtLink(ns, Some(d)) && !AgreesFrom(ns, Some(d));
    }
  }

  /** From every start at all, links included, if and only if all links have such a target: "." names
      a link in itself. */
  lemma AgreesEverywhereExactly(ns: Namespace)
    requires ns.KindOf(ns.root).Dir?
    ensures (forall at :: AgreesFrom(ns, at)) <==> ns.WellFormed()
  {
    if ns.WellFormed() {
      forall at ensures AgreesFrom(ns, at) {
        forall path: string, follow: nat, i: Ino ensures Agrees(ns, at, path, follow, i) {
          PassableAgrees(ns, at, path, follow, i);
        }
      }
    } else {
      var l :| l in ns.kinds && ns.kinds[l].Link? && !GoodTarget(ns.kinds[l].target);
      assert ns.Component(l, ".") == Some(l);
      BadTargetDisagrees(ns, l, ".", ns.kinds[l].target);
      assert !AgreesFrom(ns, Some(l));
    }
  }
}
