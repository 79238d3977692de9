/**
  What calls answer, and when the slots and lists that calls share change: glfs_active_subvol with and
  without a graph waiting, graph_setup, glfs_cwd_get, and the list of open glfds.
 */
module GraphSwitchAnswers {
  import opened Wrappers
  import opened GraphSwitch
  import opened GraphSwitchSafety
  import opened GraphSwitchFds
  import opened GraphSwitchInv
  import opened GraphSwitchRuns
  import opened GraphSwitchAtomic
  import opened GraphSwitchCalls

  // ---- glfs_active_subvol ------------------------------------------------------------

  /** Nothing but the state of thread `t` and the count of `g`, which grew by one, has changed. */
  ghost predicate OneMore(s: State, s': State, t: Tid, g: Graph) {
    && t < |s.threads| && s'.threads == s.threads[t := Holding(g)]
    && (forall h: Graph :: Winds(s', h) == Winds(s, h) + if h == g then 1 else 0)
    && s'.graphs.(winds := s.graphs.winds) == s.graphs
    && s'.table == s.table && s'.cwd == s.cwd && s'.migrating == s.migrating && s'.init == s.init
  }

  /** Without a graph waiting, the call returns the active graph with a reference of its own, or NULL with
      nothing changed when there is none. */
  lemma NoSwitchGivesActive(before: seq<Event>, t: Tid)
    requires Legal(INITIAL, before)
    requires var s := Exec(INITIAL, before); Enabled(s, Event(t, BeginActive)) && s.graphs.next.None?
    ensures var s := Exec(INITIAL, before); var s' := Apply(s, Event(t, BeginActive));
      match s.graphs.active {
        case Some(g) => OneMore(s, s', t, g)
        case None => s' == s && s.threads[t] == Idle
      }
  {
    var s := Exec(INITIAL, before);
    var s' := Apply(s, Event(t, BeginActive));
    ReachableInv(before);
    RetiringOnlyInMigration(before);
    assert s.graphs.retiring.None?;
    if s.graphs.active.None? {
      assert s'.threads == s.threads;
    }
  }

  /** What the call returns, once its thread stands at `p`: the old graph may still have to be dropped. */
  function Answer(p: Pc): Option<Graph> {
    match p
    case Holding(g) => Some(g)
    case DropOld(_, r) => r
    case _ => None
  }

  /** A whole call, with any steps of other threads in between, returns the graph that was waiting unless
      its first lookup or the cwd refresh fails, and the active graph when none was waiting. */
  lemma ActiveSubvolAnswers(before: seq<Event>, t: Tid, run: seq<Event>)
    requires Legal(INITIAL, before)
    requires var s0, e := Exec(INITIAL, before), Event(t, BeginActive);
      Enabled(s0, e) && Legal(Apply(s0, e), run) && UntilReturn(Apply(s0, e), run, t)
    ensures var s0 := Exec(INITIAL, before);
      var z := Exec(Apply(s0, Event(t, BeginActive)), run);
      && t < |z.threads|
      && Answer(z.threads[t]) ==
           (if s0.graphs.next.None? then s0.graphs.active else if AnyFails(run, t) then None else s0.graphs.next)
      && (Answer(z.threads[t]).None? <==> (s0.graphs.next.None? && s0.graphs.active.None?) || AnyFails(run, t))
  {
    var s0, e := Exec(INITIAL, before), Event(t, BeginActive);
    if s0.graphs.next.None? {
      NoSwitchGivesActive(before, t);
      assert !InSwitch(Apply(s0, e).threads[t]);
      assert run == [];
    } else {
      SwitchAllOrNothing(before, t, run);
    }
  }

  // ---- the next slot -----------------------------------------------------------------

  /** graph_setup brings up a graph that is neither in use nor was switched away from. */
  predicate BringsUp(s: State, e: Event) {
    && e.action.GraphSetup? && e.action.tableOk && e.action.graph !in s.graphs.switched
    && s.graphs.active != Some(e.action.graph) && s.graphs.next != Some(e.action.graph)
  }

  /** A switch gets past its exchange. */
  predicate Exchanges(s: State, s': State, e: Event) {
    && e.tid < |s.threads| && PreExchange(s.threads[e.tid]) && !Fails(e, e.tid)
    && e.tid < |s'.threads| && !PreExchange(s'.threads[e.tid])
  }

  /** The next slot changes exactly when a new graph is brought up, which then is in it, and when a switch
      exchanges the slots, which leaves it empty. */
  lemma NextSlotChanges(s: State, e: Event)
    requires Inv(s) && Enabled(s, e)
    ensures var s' := Apply(s, e);
      s'.graphs.next ==
        if BringsUp(s, e) then Some(e.action.graph) else if Exchanges(s, s', e) then None else s.graphs.next
  {
    var s' := Apply(s, e);
    if !e.action.Spawn? && InSwitch(s.threads[e.tid]) {
      SwitchNext(s, e);
    }
  }

  lemma FinishNext(s: State, t: Tid, n: Graph, c: Option<Inode>, i: nat)
    requires t < |s.threads| && i <= |s.table.open|
    ensures var s' := MigrateFrom(s, t, n, c, i);
      && t < |s'.threads|
      && s'.graphs.next == if PreExchange(s'.threads[t]) then s.graphs.next else None
  {
    MigrateFromOutcome(s, t, n, c, i);
  }

  lemma SwitchNext(s: State, e: Event)
    requires Inv(s) && Enabled(s, e) && e.tid < |s.threads| && InSwitch(s.threads[e.tid])
    ensures var s' := Apply(s, e);
      s'.graphs.next == if Exchanges(s, s', e) then None else s.graphs.next
  {
    var t, p, a := e.tid, s.threads[e.tid], e.action;
    assert SwitchAction(a) && Apply(s, e) == ActSwitch(s, t, p, a);
    if a.LookupDone? && a.ok && s.cwd.None? {
      FinishNext(s, t, p.target, None, 0);
    } else if a.CwdRefreshed? && a.ok {
      FinishNext(s, t, p.target, Some(Inode(p.target, s.cwd.value.gfid)), 0);
    } else if a.FdMigrated? {
      FinishNext(s.(table := Migrated(s.table, s.table.open[p.index], p.target, a.result)), t, p.target, p.newCwd,
                 p.index + 1);
    }
  }

  /** A graph that is brought up gets one reference, and the one it displaces is left to be dropped. */
  lemma BroughtUp(s: State, e: Event)
    requires Enabled(s, e) && BringsUp(s, e)
    ensures var s', g := Apply(s, e), e.action.graph;
      && s'.graphs.next == Some(g) && s'.graphs.active == s.graphs.active
      && (forall h: Graph :: Winds(s', h) == Winds(s, h) + if h == g then 1 else 0)
      && s'.threads[e.tid] == if s.graphs.next.Some? then Displaced(s.graphs.next.value) else Notified
  {
  }

  // ---- glfs_cwd_get ------------------------------------------------------------------

  lemma {:induction false} GetEnds(s0: State, s: State, t: Tid, held: Graph, run: seq<Event>)
    requires Inv(s) && Frozen(s0, s) && Legal(s, run) && UntilOut(s, run, t) && s.threads[t] == GetCwd(held)
    ensures var z := Exec(s, run); Frozen(s0, z) && t < |z.threads| && z.threads[t] == Holding(held)
    decreases |run|
  {
    var e := run[0];
    if e.tid != t {
      StepKeepsInv(s, e);
      OtherKeepsPc(s, t, e);
      GetEnds(s0, Apply(s, e), t, held, run[1..]);
    } else {
      assert e.action.CwdGetDone?;
      assert run[1..] == [];
    }
  }

  /** A whole glfs_cwd_get changes nothing, and drops the mutex for a refresh exactly when a cwd is set on
      another graph than the active one. */
  lemma CwdGetKeeps(before: seq<Event>, t: Tid, run: seq<Event>)
    requires Legal(INITIAL, before)
    requires var s0, e := Exec(INITIAL, before), Event(t, BeginCwdGet);
      Enabled(s0, e) && Legal(Apply(s0, e), run) && UntilOut(Apply(s0, e), run, t)
    ensures var s0 := Exec(INITIAL, before);
      var z := Exec(Apply(s0, Event(t, BeginCwdGet)), run);
      && Frozen(s0, z) && t < |z.threads| && z.threads[t] == s0.threads[t]
      && (run != [] <==> s0.cwd.Some? && s0.graphs.active != Some(s0.cwd.value.graph))
  {
    var s0, e := Exec(INITIAL, before), Event(t, BeginCwdGet);
    var s := Apply(s0, e);
    ReachableInv(before);
    StepKeepsInv(s0, e);
    assert Frozen(s0, s0);
    if s.threads[t].GetCwd? {
      GetEnds(s0, s, t, s0.threads[t].held, run);
    } else {
      assert s == s0 && run == [];
    }
  }

  // ---- the list of open glfds --------------------------------------------------------

  lemma {:induction false} WithoutCuts(q: seq<Glfd>, b: Glfd) returns (i: nat)
    requires b in q
    ensures i < |q| && q[i] == b && Without(q, b) == q[..i] + q[i + 1..]
  {
    if q[0] == b {
      i := 0;
    } else {
      var k := WithoutCuts(q[1..], b);
      i := k + 1;
      assert q[1..][..k] == q[1..i] && q[1..][k + 1..] == q[i + 1..];
    }
  }

  lemma {:induction false} WithoutAbsent(q: seq<Glfd>, b: Glfd)
    requires b !in q
    ensures Without(q, b) == q
  {
    if q != [] {
      WithoutAbsent(q[1..], b);
    }
  }

  lemma SwitchKeepsOpen(s: State, t: Tid, a: Action)
    requires t < |s.threads| && Can(s, s.threads[t], a) && SwitchAction(a)
    ensures ActSwitch(s, t, s.threads[t], a).table.open == s.table.open
  {
    SwitchTable(s, t, a, 0);
  }

  /** A glfd is in the list from the step that binds it, which puts it at the end, to the step that destroys
      it, which takes it and no other out. */
  lemma OpenListChanges(s: State, e: Event)
    requires Inv(s) && Enabled(s, e)
    ensures var open, open' := s.table.open, Apply(s, e).table.open;
      match e.action {
        case BindGlfd => s.threads[e.tid].Opened? && open' == open + [s.threads[e.tid].glfd]
        case Destroy(b) => exists i :: 0 <= i < |open| && open[i] == b && open' == open[..i] + open[i + 1..]
        case _ => open' == open
      }
  {
    if SwitchAction(e.action) {
      SwitchKeepsOpen(s, e.tid, e.action);
    } else if e.action.Destroy? {
      var i := WithoutCuts(s.table.open, e.action.bound);
    } else if e.action.AbortOpen? {
      WithoutAbsent(s.table.open, s.threads[e.tid].glfd);
    }
  }

  // ---- an fd that is being opened ----------------------------------------------------

  lemma SwitchSparesOpened(s: State, t: Tid, a: Action, b: Glfd)
    requires TableInv(s.table) && t < |s.threads| && Can(s, s.threads[t], a) && SwitchAction(a)
    requires b in s.table.slots && b !in s.table.open
    ensures SameSlot(s.table, ActSwitch(s, t, s.threads[t], a).table, b)
  {
    var p := s.threads[t];
    SwitchTable(s, t, a, 0);
    if a.FdMigrated? {
      MigratedOthers(s.table, s.table.open[p.index], p.target, a.result, b);
    }
  }

  lemma FdSparesOpened(s: State, t: Tid, a: Action, b: Glfd)
    requires TableInv(s.table) && t < |s.threads| && Can(s, s.threads[t], a) && FdAction(a)
    requires b in s.table.slots && b !in s.table.open
    requires PcOk(s, s.threads[t]) && (s.threads[t].Opened? ==> s.threads[t].glfd != b)
    ensures SameSlot(s.table, ActFd(s, t, s.threads[t], a).table, b)
  {
    assert s.table.slots[b] in s.table.fds;
  }

  /** A step of another thread leaves a glfd that is being opened alone, even the steps of a switch. */
  lemma OtherSparesOpened(s: State, t: Tid, e: Event)
    requires Inv(s) && Enabled(s, e) && e.tid != t && t < |s.threads| && s.threads[t].Opened?
    ensures var s' := Apply(s, e);
      && t < |s'.threads| && s'.threads[t] == s.threads[t]
      && SameSlot(s.table, s'.table, s.threads[t].glfd)
  {
    var b := s.threads[t].glfd;
    assert PcOk(s, s.threads[t]);
    if !e.action.Spawn? {
      StepGrows(s, e);
      assert !SameGlfd(s.threads[t], s.threads[e.tid]) && !SameGlfd(s.threads[e.tid], s.threads[t]);
      if SwitchAction(e.action) {
        SwitchSparesOpened(s, e.tid, e.action, b);
      } else if FdAction(e.action) {
        FdSparesOpened(s, e.tid, e.action, b);
      } else if CwdAction(e.action) {
        CwdFrame(s, e.tid, e.action, 0);
      } else {
        GraphLock(s, e.tid, e.action);
      }
    }
  }

  lemma {:induction false} OpenedStays(s: State, t: Tid, run: seq<Event>)
    requires Inv(s) && Legal(s, run) && t < |s.threads| && s.threads[t].Opened? && forall e :: e in run ==> e.tid != t
    ensures var z := Exec(s, run);
      t < |z.threads| && z.threads[t] == s.threads[t] && SameSlot(s.table, z.table, s.threads[t].glfd)
    decreases |run|
  {
    if run != [] {
      OtherSparesOpened(s, t, run[0]);
      StepKeepsInv(s, run[0]);
      OpenedStays(Apply(s, run[0]), t, run[1..]);
    }
  }

  /** Whatever other threads do before the glfd is bound, a whole switch included, it stores the fd it was
      opened with, on the graph of the call that opened it. */
  lemma OpenedIsLeftAlone(before: seq<Event>, t: Tid, b: Glfd, f: FdId, gfid: Gfid, run: seq<Event>)
    requires Legal(INITIAL, before) && forall e :: e in run ==> e.tid != t
    requires var s0, e := Exec(INITIAL, before), Event(t, OpenGlfd(b, f, gfid));
      Enabled(s0, e) && Legal(Apply(s0, e), run)
    ensures var s0 := Exec(INITIAL, before); var g := s0.threads[t].held;
      var z := Exec(Apply(s0, Event(t, OpenGlfd(b, f, gfid))), run);
      && t < |z.threads| && z.threads[t] == Opened(g, b)
      && z.table.Stored(b) == f && z.table.At(b) == Inode(g, gfid)
  {
    var s0, e := Exec(INITIAL, before), Event(t, OpenGlfd(b, f, gfid));
    ReachableInv(before);
    StepKeepsInv(s0, e);
    OpenedStays(Apply(s0, e), t, run);
  }
}
