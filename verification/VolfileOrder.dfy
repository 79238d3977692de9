/**
  The order in which generate prints a graph: every reachable translator exactly once, after
  all its subvolumes, however its children are shared.
 */
module VolfileOrder {
  import opened Basics
  import opened Volfile

  /** All subvolumes of `x` are in `known`. */
  predicate SubsIn<X(==)>(n: Node<X>, known: set<X>) {
    forall i :: 0 <= i < |n.subs| ==> n.subs[i] in known
  }

  /** Each translator comes after all its subvolumes, except those in `dumped`. */
  ghost predicate Ordered<X>(g: map<X, Node<X>>, order: seq<X>, dumped: set<X>) {
    forall k :: 0 <= k < |order| ==> order[k] in g && SubsIn(g[order[k]], dumped + Elems(order[..k]))
  }

  ghost predicate Fresh<X>(order: seq<X>, dumped: set<X>) {
    forall k :: 0 <= k < |order| ==> order[k] !in dumped
  }

  /** `y` can be reached from `x` through subvolumes. */
  ghost predicate Reaches<X>(g: map<X, Node<X>>, rank: map<X, nat>, x: X, y: X)
    requires Ranked(g, rank) && x in g
    decreases rank[x]
  {
    x == y || exists i :: 0 <= i < |g[x].subs| && ReachesSub(g, rank, x, i, y)
  }

  ghost predicate ReachesSub<X>(g: map<X, Node<X>>, rank: map<X, nat>, x: X, i: nat, y: X)
    requires Ranked(g, rank) && x in g && i < |g[x].subs|
    decreases rank[x], 0
  {
    assert Below(g, rank, g[x].subs[i], x);
    Reaches(g, rank, g[x].subs[i], y)
  }

  lemma ElemsSplit<X>(a: seq<X>, b: seq<X>)
    ensures Elems(a + b) == Elems(a) + Elems(b)
  {
    forall y | y in Elems(a) + Elems(b) ensures y in Elems(a + b) {
      if y in Elems(a) {
        var i :| 0 <= i < |a| && a[i] == y;
        assert (a + b)[i] == y;
      } else {
        var i :| 0 <= i < |b| && b[i] == y;
        assert (a + b)[|a| + i] == y;
      }
    }
  }

  /** Two good runs one after the other are a good run. */
  lemma Appends<X>(g: map<X, Node<X>>, a: seq<X>, b: seq<X>, dumped: set<X>)
    requires NoDup(a) && Ordered(g, a, dumped) && Fresh(a, dumped)
    requires NoDup(b) && Ordered(g, b, dumped + Elems(a)) && Fresh(b, dumped + Elems(a))
    ensures NoDup(a + b) && Ordered(g, a + b, dumped) && Fresh(a + b, dumped)
  {
    forall k | 0 <= k < |a + b|
      ensures (a + b)[k] in g && SubsIn(g[(a + b)[k]], dumped + Elems((a + b)[..k]))
    {
      if k < |a| {
        assert (a + b)[..k] == a[..k];
      } else {
        assert (a + b)[..k] == a + b[..k - |a|];
        ElemsSplit(a, b[..k - |a|]);
        assert SubsIn(g[b[k - |a|]], dumped + Elems(a) + Elems(b[..k - |a|]));
      }
    }
    forall i, j | 0 <= i < j < |a + b| ensures (a + b)[i] != (a + b)[j] {
      if i < |a| <= j {
        assert a[i] in Elems(a);
        assert b[j - |a|] !in dumped + Elems(a);
      }
    }
  }

  /** Everything printed for a subvolume of `x` ranks below `x` and can be reached from it. */
  ghost predicate Under<X>(g: map<X, Node<X>>, rank: map<X, nat>, order: seq<X>, x: X)
    requires Ranked(g, rank) && x in g
  {
    forall k :: 0 <= k < |order| ==> Below(g, rank, order[k], x) && Reaches(g, rank, x, order[k])
  }

  ghost predicate AtOrUnder<X>(g: map<X, Node<X>>, rank: map<X, nat>, y: X, x: X)
    requires Ranked(g, rank) && x in g
  {
    y in g && y in rank && rank[y] <= rank[x] && Reaches(g, rank, x, y)
  }

  lemma UnderAppend<X>(g: map<X, Node<X>>, rank: map<X, nat>, a: seq<X>, b: seq<X>, x: X)
    requires Ranked(g, rank) && x in g && Under(g, rank, a, x) && Under(g, rank, b, x)
    ensures Under(g, rank, a + b, x)
  {
  }

  lemma SubIsUnder<X>(g: map<X, Node<X>>, rank: map<X, nat>, more: seq<X>, x: X, n: nat)
    requires Ranked(g, rank) && x in g && n < |g[x].subs| && Below(g, rank, g[x].subs[n], x)
    requires forall k :: 0 <= k < |more| ==> AtOrUnder(g, rank, more[k], g[x].subs[n])
    ensures Under(g, rank, more, x)
  {
    forall k | 0 <= k < |more| ensures Below(g, rank, more[k], x) && Reaches(g, rank, x, more[k]) {
      assert ReachesSub(g, rank, x, n, more[k]);
    }
  }

  /** What generate prints for the first `n` subvolumes of `x`. */
  ghost predicate GoodFor<X>(g: map<X, Node<X>>, rank: map<X, nat>, x: X, n: nat, dumped: set<X>, order: seq<X>)
    requires Ranked(g, rank) && x in g && n <= |g[x].subs|
  {
    && NoDup(order) && Ordered(g, order, dumped) && Fresh(order, dumped) && Under(g, rank, order, x)
    && (forall i :: 0 <= i < n ==> g[x].subs[i] in dumped + Elems(order))
  }

  lemma GoodForMore<X>(g: map<X, Node<X>>, rank: map<X, nat>, x: X, n: nat, dumped: set<X>, before: seq<X>,
                       more: seq<X>)
    requires Ranked(g, rank) && x in g && n < |g[x].subs| && GoodFor(g, rank, x, n, dumped, before)
    requires NoDup(more) && Ordered(g, more, dumped + Elems(before)) && Fresh(more, dumped + Elems(before))
    requires Under(g, rank, more, x) && more != [] && more[|more| - 1] == g[x].subs[n]
    ensures GoodFor(g, rank, x, n + 1, dumped, before + more)
  {
    Appends(g, before, more, dumped);
    ElemsSplit(before, more);
    UnderAppend(g, rank, before, more, x);
    assert g[x].subs[n] in Elems(more);
  }

  /** What generate prints for `x` itself. */
  ghost predicate GoodAt<X>(g: map<X, Node<X>>, rank: map<X, nat>, x: X, dumped: set<X>, order: seq<X>)
    requires Ranked(g, rank) && x in g
  {
    && NoDup(order) && Ordered(g, order, dumped) && Fresh(order, dumped)
    && (forall k :: 0 <= k < |order| ==> AtOrUnder(g, rank, order[k], x))
    && order != [] && order[|order| - 1] == x
  }

  lemma EmitStep<X>(g: map<X, Node<X>>, rank: map<X, nat>, x: X, n: nat, dumped: set<X>, before: seq<X>)
    requires Ranked(g, rank) && x in g && n < |g[x].subs| && Below(g, rank, g[x].subs[n], x)
    requires before == EmitSubs(g, rank, x, n, dumped) && GoodFor(g, rank, x, n, dumped, before)
    requires var seen := dumped + Elems(before);
      g[x].subs[n] in seen || GoodAt(g, rank, g[x].subs[n], seen, Emit(g, rank, g[x].subs[n], seen))
    ensures GoodFor(g, rank, x, n + 1, dumped, EmitSubs(g, rank, x, n + 1, dumped))
  {
    var sv, seen := g[x].subs[n], dumped + Elems(before);
    if sv !in seen {
      var more := Emit(g, rank, sv, seen);
      SubIsUnder(g, rank, more, x, n);
      GoodForMore(g, rank, x, n, dumped, before, more);
    }
  }

  lemma {:induction false} EmitSubsGood<X>(g: map<X, Node<X>>, rank: map<X, nat>, x: X, n: nat, dumped: set<X>)
    requires Ranked(g, rank) && x in g && n <= |g[x].subs|
    ensures GoodFor(g, rank, x, n, dumped, EmitSubs(g, rank, x, n, dumped))
    decreases rank[x], 0, n
  {
    if n > 0 {
      EmitSubsGood(g, rank, x, n - 1, dumped);
      var before, sv := EmitSubs(g, rank, x, n - 1, dumped), g[x].subs[n - 1];
      var seen := dumped + Elems(before);
      assert Below(g, rank, sv, x);
      assert sv in seen || GoodAt(g, rank, sv, seen, Emit(g, rank, sv, seen)) by {
        if sv !in seen {
          EmitGood(g, rank, sv, seen);
        }
      }
      EmitStep(g, rank, x, n - 1, dumped, before);
    }
  }

  lemma {:induction false} EmitGood<X>(g: map<X, Node<X>>, rank: map<X, nat>, x: X, dumped: set<X>)
    requires Ranked(g, rank) && x in g && x !in dumped
    ensures GoodAt(g, rank, x, dumped, Emit(g, rank, x, dumped))
    decreases rank[x], 1, 0
  {
    EmitSubsGood(g, rank, x, |g[x].subs|, dumped);
    var before := EmitSubs(g, rank, x, |g[x].subs|, dumped);
    forall k | 0 <= k < |before| ensures before[k] != x {
      assert Below(g, rank, before[k], x);
    }
    assert Ordered(g, [x], dumped + Elems(before)) by {
      assert [x][..0] == [];
      assert SubsIn(g[x], dumped + Elems(before) + Elems<X>([]));
    }
    Appends(g, before, [x], dumped);
  }

  lemma {:induction false} ReachedIsPrinted<X>(g: map<X, Node<X>>, rank: map<X, nat>, order: seq<X>, x: X, y: X)
    requires Ranked(g, rank) && Ordered(g, order, {}) && x in order && x in g && Reaches(g, rank, x, y)
    ensures y in order
    decreases rank[x]
  {
    if x != y {
      var k :| 0 <= k < |order| && order[k] == x;
      var i :| 0 <= i < |g[x].subs| && ReachesSub(g, rank, x, i, y);
      var sv := g[x].subs[i];
      assert sv in {} + Elems(order[..k]);
      var j :| 0 <= j < k && order[..k][j] == sv;
      assert order[j] == sv && Below(g, rank, sv, x);
      ReachedIsPrinted(g, rank, order, sv, y);
    }
  }

  /** generate prints every translator reachable from the top, no other, each exactly once, and
      each after all its subvolumes; the top comes last. */
  lemma GenerateOrder<X>(g: map<X, Node<X>>, rank: map<X, nat>, top: X)
    requires Ranked(g, rank) && top in g
    ensures var order := Emit(g, rank, top, {});
      && NoDup(order) && Ordered(g, order, {})
      && |order| > 0 && order[|order| - 1] == top
      && (forall y :: y in order <==> y in g && Reaches(g, rank, top, y))
  {
    EmitGood(g, rank, top, {});
    var order := Emit(g, rank, top, {});
    assert order[|order| - 1] == top;
    forall y | y in g && Reaches(g, rank, top, y) ensures y in order {
      ReachedIsPrinted(g, rank, order, top, y);
    }
  }

  // ---- the text of an order ----------------------------------------------------------

  lemma {:induction false} FlattenAppend(a: seq<seq<string>>, b: seq<seq<string>>)
    ensures Flatten(a + b) == Flatten(a) + Flatten(b)
  {
    if a == [] {
      assert a + b == b;
    } else {
      assert (a + b)[1..] == a[1..] + b;
      FlattenAppend(a[1..], b);
    }
  }

  lemma {:induction false} BlocksAppend<X>(g: map<X, Node<X>>, a: seq<X>, b: seq<X>)
    requires Closed(g) && (forall i :: 0 <= i < |a| ==> a[i] in g) && (forall i :: 0 <= i < |b| ==> b[i] in g)
    ensures Blocks(g, a + b) == Blocks(g, a) + Blocks(g, b)
  {
    if a == [] {
      assert a + b == b;
    } else {
      assert (a + b)[1..] == a[1..] + b;
      BlocksAppend(g, a[1..], b);
    }
  }

  lemma TextAppend<X>(g: map<X, Node<X>>, a: seq<X>, b: seq<X>)
    requires Closed(g) && (forall i :: 0 <= i < |a| ==> a[i] in g) && (forall i :: 0 <= i < |b| ==> b[i] in g)
    ensures Text(g, a + b) == Text(g, a) + Text(g, b)
  {
    BlocksAppend(g, a, b);
    FlattenAppend(Blocks(g, a), Blocks(g, b));
  }

  lemma TextLast<X>(g: map<X, Node<X>>, init: seq<X>, x: X)
    requires Closed(g) && x in g && (forall i :: 0 <= i < |init| ==> init[i] in g)
    ensures Text(g, init + [x]) == Text(g, init) + (StanzaOf(g, x) + [""])
  {
    TextAppend(g, init, [x]);
    var piece := StanzaOf(g, x) + [""];
    assert Blocks(g, [x]) == [piece] by {
      assert [x][1..] == [];
    }
    assert Flatten([piece]) == piece + Flatten([piece][1..]) == piece;
  }
}
