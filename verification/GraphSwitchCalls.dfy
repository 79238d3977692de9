/**
  Whole calls under every interleaving: a switch returns after a bounded number of its own steps,
  setting the cwd ends on the active graph, and resolving an fd ends on the requested one.
 */
module GraphSwitchCalls {
  import opened Wrappers
  import opened GraphSwitch
  import opened GraphSwitchFds
  import opened GraphSwitchInv
  import opened GraphSwitchRuns

  // ---- a switch returns --------------------------------------------------------------

  /** The steps of thread `t` in a run. */
  function OwnSteps(run: seq<Event>, t: Tid): nat {
    if run == [] then 0 else (if run[0].tid == t then 1 else 0) + OwnSteps(run[1..], t)
  }

  /** Thread `t` is inside its switch from the beginning of the run to its end. */
  predicate StaysInSwitch(s: State, run: seq<Event>, t: Tid)
    requires Legal(s, run)
    decreases |run|
  {
    && t < |s.threads| && InSwitch(s.threads[t])
    && (run != [] ==> StaysInSwitch(Apply(s, run[0]), run[1..], t))
  }

  /** The steps that a thread at `p` can still make before its switch returns. */
  function StepsLeft(s: State, p: Pc): nat {
    match p
    case FirstLookup(_) => |s.table.open| + 3
    case RefreshCwd(_) => |s.table.open| + 2
    case MigrateFd(_, _, i) => if i < |s.table.open| then |s.table.open| - i + 1 else 1
    case InstallCwd(_, _) => 1
    case _ => 0
  }

  lemma FinishLeft(s: State, t: Tid, n: Graph, newCwd: Option<Inode>)
    requires t < |s.threads|
    ensures var s' := Finish(s, t, n, newCwd); StepsLeft(s', s'.threads[t]) <= 1
  {
  }

  lemma MigrateFromLeft(s: State, t: Tid, n: Graph, newCwd: Option<Inode>, i: nat)
    requires t < |s.threads| && i <= |s.table.open|
    ensures var s' := MigrateFrom(s, t, n, newCwd, i);
      t < |s'.threads| && StepsLeft(s', s'.threads[t]) <= |s.table.open| - i + 1
  {
    if s.table.NextMigratable(i) == |s.table.open| {
      FinishLeft(s, t, n, newCwd);
    }
  }

  lemma LookupLeft(s: State, t: Tid, n: Graph, ok: bool)
    requires t < |s.threads|
    ensures var s' := AfterLookup(s, t, n, ok); StepsLeft(s', s'.threads[t]) < |s.table.open| + 3
  {
    if ok && s.cwd.None? {
      MigrateFromLeft(s, t, n, None, 0);
    }
  }

  lemma CwdRefreshLeft(s: State, t: Tid, n: Graph, ok: bool)
    requires t < |s.threads| && s.cwd.Some?
    ensures var s' := AfterCwdRefresh(s, t, n, ok); StepsLeft(s', s'.threads[t]) < |s.table.open| + 2
  {
    if ok {
      MigrateFromLeft(s, t, n, Some(Inode(n, s.cwd.value.gfid)), 0);
    }
  }

  lemma MigratedOpen(tb: Table, b: Glfd, n: Graph, result: Option<FdId>)
    ensures Migrated(tb, b, n, result).open == tb.open
  {
  }

  lemma FdLeft(s: State, t: Tid, p: Pc, result: Option<FdId>)
    requires t < |s.threads| && p.MigrateFd? && p.index < |s.table.open|
    ensures var s' := AfterFd(s, t, p, result); StepsLeft(s', s'.threads[t]) < |s.table.open| - p.index + 1
  {
    var s1 := s.(table := Migrated(s.table, s.table.open[p.index], p.target, result));
    MigratedOpen(s.table, s.table.open[p.index], p.target, result);
    MigrateFromLeft(s1, t, p.target, p.newCwd, p.index + 1);
  }

  /** Each step of its own brings the switch nearer to its return. */
  lemma OwnStepLeft(s: State, e: Event)
    requires Enabled(s, e) && e.tid < |s.threads| && InSwitch(s.threads[e.tid])
    ensures var s' := Apply(s, e);
      e.tid < |s'.threads| && StepsLeft(s', s'.threads[e.tid]) < StepsLeft(s, s.threads[e.tid])
  {
    var t, p, a := e.tid, s.threads[e.tid], e.action;
    assert SwitchAction(a) && Apply(s, e) == ActSwitch(s, t, p, a);
    if p.FirstLookup? {
      LookupLeft(s, t, p.target, a.ok);
    } else if p.RefreshCwd? {
      CwdRefreshLeft(s, t, p.target, a.ok);
    } else if p.MigrateFd? {
      FdLeft(s, t, p, a.result);
    }
  }

  lemma {:induction false} StepsAreLeft(s: State, t: Tid, run: seq<Event>)
    requires Inv(s) && Legal(s, run) && StaysInSwitch(s, run, t)
    ensures OwnSteps(run, t) < StepsLeft(s, s.threads[t])
    decreases |run|
  {
    if run != [] {
      var s' := Apply(s, run[0]);
      StepKeepsInv(s, run[0]);
      StepsAreLeft(s', t, run[1..]);
      if run[0].tid == t {
        OwnStepLeft(s, run[0]);
      } else {
        OtherKeepsPc(s, t, run[0]);
      }
    }
  }

  /** Whatever other threads do, a switch is over after at most three steps of its own more than there
      are open fds. */
  lemma SwitchReturns(before: seq<Event>, t: Tid, run: seq<Event>)
    requires Legal(INITIAL, before)
    requires var s0 := Exec(INITIAL, before);
      Enabled(s0, Event(t, BeginActive)) && Legal(Apply(s0, Event(t, BeginActive)), run)
    ensures var s0 := Exec(INITIAL, before);
      StaysInSwitch(Apply(s0, Event(t, BeginActive)), run, t) ==> OwnSteps(run, t) < |s0.table.open| + 3
  {
    var s0, e := Exec(INITIAL, before), Event(t, BeginActive);
    ReachableInv(before);
    StepKeepsInv(s0, e);
    if StaysInSwitch(Apply(s0, e), run, t) {
      StepsAreLeft(Apply(s0, e), t, run);
    }
  }

  // ---- calls with one window ---------------------------------------------------------

  /** The run ends with the step that takes thread `t` out of its window. */
  predicate UntilOut(s: State, run: seq<Event>, t: Tid)
    requires Legal(s, run)
    decreases |run|
  {
    && t < |s.threads|
    && if run == [] then !InWindow(s.threads[t])
       else InWindow(s.threads[t]) && UntilOut(Apply(s, run[0]), run[1..], t)
  }

  // ---- setting the cwd ---------------------------------------------------------------

  /** The refresh of thread `t` fails. */
  predicate RefreshFails(run: seq<Event>, t: Tid) {
    Event(t, CwdSetDone(false)) in run
  }

  /** The cwd after the call, which began with the graph `g` active. */
  function CwdAfter(was: Option<Inode>, g: Option<Graph>, gfid: Gfid, fails: bool): Option<Inode> {
    if fails || g.None? then was else Some(Inode(g.value, gfid))
  }

  /** Active, old and every open fd are as they were. */
  predicate GraphsKept(s: State, s': State) {
    Frozen(s.(cwd := None), s'.(cwd := None))
  }

  lemma SetLast(s: State, e: Event, held: Graph, i: Inode)
    requires Inv(s) && Enabled(s, e) && e.tid < |s.threads| && s.threads[e.tid] == SetCwd(held, i)
    ensures var s' := Apply(s, e);
      && e.action.CwdSetDone? && s'.graphs == s.graphs && s'.table == s.table && s'.threads[e.tid] == Holding(held)
      && s.graphs.active.Some? && s'.cwd == CwdAfter(s.cwd, s.graphs.active, i.gfid, !e.action.ok)
  {
  }

  lemma {:induction false} SetEnds(s0: State, s: State, t: Tid, held: Graph, i: Inode, run: seq<Event>)
    requires Inv(s) && Frozen(s0, s) && Legal(s, run) && UntilOut(s, run, t) && s.threads[t] == SetCwd(held, i)
    ensures var z := Exec(s, run);
      && GraphsKept(s0, z) && t < |z.threads| && z.threads[t] == Holding(held) && s0.graphs.active.Some?
      && z.cwd == CwdAfter(s0.cwd, s0.graphs.active, i.gfid, RefreshFails(run, t))
    decreases |run|
  {
    var e := run[0];
    assert run == [e] + run[1..];
    if e.tid != t {
      StepKeepsInv(s, e);
      OtherKeepsPc(s, t, e);
      SetEnds(s0, Apply(s, e), t, held, i, run[1..]);
    } else {
      SetLast(s, e, held, i);
      assert run[1..] == [];
    }
  }

  /** glfs_cwd_set as a whole, with any steps of other threads in between: the graph that is active and
      every open fd stay as they are, and the cwd becomes the requested file on that graph, or stays
      what it was if the refresh fails. */
  lemma CwdSetIsAtomic(before: seq<Event>, t: Tid, i: Inode, run: seq<Event>)
    requires Legal(INITIAL, before)
    requires var s0, e := Exec(INITIAL, before), Event(t, BeginCwdSet(i));
      Enabled(s0, e) && Legal(Apply(s0, e), run) && UntilOut(Apply(s0, e), run, t)
    ensures var s0 := Exec(INITIAL, before);
      var z := Exec(Apply(s0, Event(t, BeginCwdSet(i))), run);
      && GraphsKept(s0, z) && t < |z.threads| && z.threads[t] == s0.threads[t] && s0.graphs.active.Some?
      && z.cwd == CwdAfter(s0.cwd, s0.graphs.active, i.gfid, RefreshFails(run, t))
  {
    var s0, e := Exec(INITIAL, before), Event(t, BeginCwdSet(i));
    var s := Apply(s0, e);
    ReachableInv(before);
    StepKeepsInv(s0, e);
    if s.threads[t].SetCwd? {
      SetEnds(s0, s, t, s0.threads[t].held, i, run);
    } else {
      assert run == [];
    }
  }

  // ---- glfs_resolve_fd ---------------------------------------------------------------

  /** The migration of the fd by thread `t` fails. */
  predicate MigrationFails(run: seq<Event>, t: Tid) {
    Event(t, FdResolved(None)) in run
  }

  /** What the call that found `tb` returns for glfd `b` on graph `g`, and what it leaves in the table: NULL if
      the migration fails, and otherwise an fd on `g` for the same file, which is then the one stored in `b`
      if `g` is the active graph or `b` was on `g` before. */
  predicate ResolvedTo(tb: Table, active: Option<Graph>, tb': Table, p: Pc, g: Graph, b: Glfd, fails: bool) {
    if fails then p == Holding(g) && SameSlot(tb, tb', b)
    else
      && p.UsingFd? && p.held == g && tb'.Node(p.fd).inode == Inode(g, tb.At(b).gfid)
      && if active == Some(g) || tb.At(b).graph == g then tb'.Stored(b) == p.fd else SameSlot(tb, tb', b)
  }

  /** Everything but glfd `b` is as it was. */
  predicate OnlyFd(s: State, s': State, b: Glfd) {
    && s'.graphs.active == s.graphs.active && s'.graphs.retiring == s.graphs.retiring
    && s'.graphs.switched == s.graphs.switched && s'.cwd == s.cwd && s'.table.open == s.table.open
    && (forall c :: c in s.table.open && c != b ==> SameSlot(s.table, s'.table, c))
  }

  lemma ResolveNow(s: State, t: Tid, g: Graph, b: Glfd)
    requires TableInv(s.table) && t < |s.threads| && b in s.table.open && s.table.At(b).graph == g
    ensures var s' := BeginResolveFd(s, t, g, b);
      OnlyFd(s, s', b) && ResolvedTo(s.table, s.graphs.active, s'.table, s'.threads[t], g, b, false)
  {
  }

  lemma ResolveLater(s: State, t: Tid, g: Graph, b: Glfd, r: Option<FdId>)
    requires TableInv(s.table) && t < |s.threads| && b in s.table.open && s.table.At(b).graph != g
    requires FdResult(s.table, b, g, r)
    ensures var s' := AfterResolve(s, t, g, b, r);
      OnlyFd(s, s', b) && ResolvedTo(s.table, s.graphs.active, s'.table, s'.threads[t], g, b, r.None?)
  {
    forall c | c in s.table.open ensures s.table.slots[c] in s.table.fds {
    }
  }

  lemma {:induction false} ResolveEnds(s0: State, s: State, t: Tid, g: Graph, b: Glfd, run: seq<Event>)
    requires Inv(s) && Frozen(s0, s) && Legal(s, run) && UntilOut(s, run, t) && s.threads[t] == ResolveFd(g, b)
    requires b in s0.table.open && s0.table.At(b).graph != g
    ensures var z := Exec(s, run);
      && t < |z.threads| && OnlyFd(s0, z, b)
      && ResolvedTo(s0.table, s0.graphs.active, z.table, z.threads[t], g, b, MigrationFails(run, t))
    decreases |run|
  {
    var e := run[0];
    assert run == [e] + run[1..];
    if e.tid != t {
      StepKeepsInv(s, e);
      OtherKeepsPc(s, t, e);
      ResolveEnds(s0, Apply(s, e), t, g, b, run[1..]);
    } else {
      assert Apply(s, e) == AfterResolve(s, t, g, b, e.action.result);
      ResolveLater(s, t, g, b, e.action.result);
      assert run[1..] == [];
    }
  }

  /** glfs_resolve_fd as a whole, with any steps of other threads in between. */
  lemma ResolveFdIsAtomic(before: seq<Event>, t: Tid, b: Glfd, run: seq<Event>)
    requires Legal(INITIAL, before)
    requires var s0, e := Exec(INITIAL, before), Event(t, BeginResolve(b));
      Enabled(s0, e) && Legal(Apply(s0, e), run) && UntilOut(Apply(s0, e), run, t)
    ensures var s0 := Exec(INITIAL, before);
      var z := Exec(Apply(s0, Event(t, BeginResolve(b))), run);
      && t < |z.threads| && OnlyFd(s0, z, b)
      && ResolvedTo(s0.table, s0.graphs.active, z.table, z.threads[t], s0.threads[t].held, b, MigrationFails(run, t))
  {
    var s0, e := Exec(INITIAL, before), Event(t, BeginResolve(b));
    var s, g := Apply(s0, e), s0.threads[t].held;
    ReachableInv(before);
    StepKeepsInv(s0, e);
    assert s == BeginResolveFd(s0, t, g, b);
    if s0.table.At(b).graph == g {
      ResolveNow(s0, t, g, b);
      assert run == [];
    } else {
      ResolveEnds(s0, s, t, g, b, run);
    }
  }
}
