/**
  The invariant of the graph switch, kept by every step of every thread, and what it means
  for whole runs.
 */
module GraphSwitchInv {
  import opened Wrappers
  import opened GraphSwitch
  import opened GraphSwitchSafety
  import opened GraphSwitchFds

  /** migration_in_progress is set exactly while one thread is inside a window, and the
      retiring slot is only used inside the last window of a switch. */
  predicate LockInv(s: State) {
    && (s.migrating ==> exists i :: 0 <= i < |s.threads| && InWindow(s.threads[i]))
    && (forall i :: 0 <= i < |s.threads| && InWindow(s.threads[i]) ==> s.migrating)
    && (forall i, j :: 0 <= i < j < |s.threads| ==> !InWindow(s.threads[i]) || !InWindow(s.threads[j]))
    && (s.graphs.retiring.Some? ==> exists i :: 0 <= i < |s.threads| && s.threads[i].InstallCwd?)
  }

  predicate SameGlfd(p: Pc, q: Pc) {
    p.Opened? && q.Opened? && p.glfd == q.glfd
  }

  /** A glfd that is being opened belongs to one thread. */
  predicate OpenedInv(s: State) {
    forall i, j :: 0 <= i < j < |s.threads| ==> !SameGlfd(s.threads[i], s.threads[j])
  }

  /** A graph that was set up and has no reference left has been told PARENT_DOWN. */
  predicate DownInv(s: State) {
    forall g :: g in s.graphs.winds && s.graphs.winds[g] == 0 ==> g in s.graphs.down
  }

  predicate AllOk(s: State) {
    forall i :: 0 <= i < |s.threads| ==> PcOk(s, s.threads[i])
  }

  ghost predicate Balanced(s: State) {
    && (forall g :: Excess(s, g) == 0)
    && (forall f :: FdExcess(s, f) == 0)
  }

  ghost predicate Inv(s: State) {
    LockInv(s) && TableInv(s.table) && OpenedInv(s) && DownInv(s) && AllOk(s) && Balanced(s)
  }

  // ---- a step while another thread is inside a window ---------------------------------

  /** The fields a migration relies on while it has dropped the mutex. */
  predicate Frozen(s: State, s': State) {
    && s'.graphs.active == s.graphs.active && s'.graphs.retiring == s.graphs.retiring
    && s'.graphs.switched == s.graphs.switched && s'.cwd == s.cwd
    && s'.table.open == s.table.open
    && (forall b :: b in s.table.open ==> b in s'.table.slots && s'.table.Stored(b) == s.table.Stored(b))
    && (forall b :: b in s.table.open ==> s'.table.At(b) == s.table.At(b))
  }

  function Winds(s: State, g: Graph): int {
    Count(s.graphs.winds, g)
  }

  /** The counts and notifications are as they were, but for one reference to a graph that came into
      the next slot. */
  ghost predicate OnlyNextGains(s: State, s': State) {
    && s'.graphs.down == s.graphs.down
    && (if s'.graphs.next == s.graphs.next then forall g: Graph :: Winds(s', g) == Winds(s, g)
        else s'.graphs.next.Some? && forall g: Graph ::
          Winds(s', g) == Winds(s, g) + if s'.graphs.next == Some(g) then 1 else 0)
  }

  /** While a migration runs, a thread outside it changes none of the frozen fields; the next
      slot can be refilled, but not emptied, and no displaced graph is dropped. */
  lemma OthersFrozen(s: State, e: Event)
    requires Enabled(s, e) && TableInv(s.table) && s.migrating
    requires e.tid < |s.threads| ==> !InWindow(s.threads[e.tid])
    ensures var s' := Apply(s, e);
      && Frozen(s, s') && s'.migrating && OnlyNextGains(s, s')
      && (s.graphs.next.Some? ==> s'.graphs.next.Some?)
      && (forall n :: Displaced(n) in s.threads ==> Displaced(n) in s'.threads)
      && (forall n :: s.graphs.next == Some(n) ==> s'.graphs.next == Some(n) || Displaced(n) in s'.threads)
  {
    var s' := Apply(s, e);
    var t := e.tid;
    assert e.action.Spawn? || e.action.GraphSetup? || e.action.InitDone? || e.action.OpenGlfd? || e.action.UnrefFd?;
    forall n | Displaced(n) in s.threads ensures Displaced(n) in s'.threads {
      var i :| 0 <= i < |s.threads| && s.threads[i] == Displaced(n);
      assert s'.threads[i] == Displaced(n);
    }
    if e.action.GraphSetup? {
      assert s'.threads[t] in s'.threads;
    }
  }

  // ---- the lock discipline ------------------------------------------------------------

  /** The thread that owns the lock moves: into a window exactly when the migration goes on. */
  lemma OwnerLock(s: State, s': State, t: Tid)
    requires LockInv(s) && Moves(s, s', t) && (InWindow(s.threads[t]) || !s.migrating)
    requires InWindow(s'.threads[t]) <==> s'.migrating
    requires s'.graphs.retiring.Some? ==> s'.threads[t].InstallCwd?
    ensures LockInv(s')
  {
    forall i | 0 <= i < |s.threads| && i != t ensures !InWindow(s'.threads[i]) {
      assert s'.threads[i] == s.threads[i];
    }
  }

  lemma BystanderLock(s: State, s': State, t: Tid)
    requires LockInv(s) && Moves(s, s', t) && s.migrating && s'.migrating
    requires !InWindow(s.threads[t]) && !InWindow(s'.threads[t]) && s'.graphs.retiring == s.graphs.retiring
    ensures LockInv(s')
  {
    var i :| 0 <= i < |s.threads| && InWindow(s.threads[i]);
    assert s'.threads[i] == s.threads[i];
    if s.graphs.retiring.Some? {
      var j :| 0 <= j < |s.threads| && s.threads[j].InstallCwd?;
      assert s'.threads[j] == s.threads[j];
    }
  }

  /** In a window exactly when the migration goes on, with the retiring slot in use only for
      the second cwd refresh. */
  predicate LockStep(s': State, t: Tid) {
    && t < |s'.threads| && (InWindow(s'.threads[t]) <==> s'.migrating)
    && (s'.graphs.retiring.Some? ==> s'.threads[t].InstallCwd?)
  }

  lemma MigrateFromLock(s: State, t: Tid, n: Graph, c: Option<Inode>, i: nat)
    requires t < |s.threads| && i <= |s.table.open| && s.graphs.retiring.None?
    ensures var s' := MigrateFrom(s, t, n, c, i); Moves(s, s', t) && LockStep(s', t)
  {
    MigrateFromOutcome(s, t, n, c, i);
  }

  /** Before a switch step its thread owns the lock, and it obeys the discipline. */
  lemma SwitchLock(s: State, t: Tid, a: Action)
    requires t < |s.threads| && Can(s, s.threads[t], a) && SwitchAction(a) && PcOk(s, s.threads[t])
    requires s.graphs.retiring.Some? ==> s.migrating
    ensures var s' := ActSwitch(s, t, s.threads[t], a);
      Moves(s, s', t) && (InWindow(s.threads[t]) || !s.migrating) && LockStep(s', t)
  {
    var p := s.threads[t];
    match a
    case BeginActive =>
    case LookupDone(ok) => if ok && s.cwd.None? { MigrateFromLock(s, t, p.target, None, 0); }
    case CwdRefreshed(ok) =>
      if ok { MigrateFromLock(s, t, p.target, Some(Inode(p.target, s.cwd.value.gfid)), 0); }
    case FdMigrated(r) =>
      var s1 := s.(table := Migrated(s.table, s.table.open[p.index], p.target, r));
      MigrateFromLock(s1, t, p.target, p.newCwd, p.index + 1);
    case CwdInstalled(ok) =>
  }

  /** old_subvol is NULL whenever the mutex is free and no migration is running. */
  lemma NoRetiring(s: State)
    requires LockInv(s) && !s.migrating
    ensures s.graphs.retiring.None?
  {
  }

  lemma BystanderMoves(s: State, e: Event)
    requires Enabled(s, e) && s.migrating && !e.action.Spawn? && !InWindow(s.threads[e.tid])
    ensures var s' := Apply(s, e);
      && Moves(s, s', e.tid) && s'.migrating && !InWindow(s'.threads[e.tid])
      && s'.graphs.retiring == s.graphs.retiring
  {
    assert e.action.GraphSetup? || e.action.InitDone? || e.action.OpenGlfd? || e.action.UnrefFd?;
  }

  lemma FdLock(s: State, t: Tid, a: Action)
    requires t < |s.threads| && Can(s, s.threads[t], a) && FdAction(a) && (InWindow(s.threads[t]) == s.migrating)
    ensures var s' := ActFd(s, t, s.threads[t], a);
      Moves(s, s', t) && InWindow(s'.threads[t]) == s'.migrating && s'.graphs == s.graphs
  {
  }

  lemma CwdLock(s: State, t: Tid, a: Action)
    requires t < |s.threads| && Can(s, s.threads[t], a) && CwdAction(a) && (InWindow(s.threads[t]) == s.migrating)
    ensures var s' := ActCwd(s, t, s.threads[t], a);
      Moves(s, s', t) && InWindow(s'.threads[t]) == s'.migrating && s'.graphs == s.graphs
  {
  }

  lemma GraphLock(s: State, t: Tid, a: Action)
    requires t < |s.threads| && Can(s, s.threads[t], a) && !SwitchAction(a) && !FdAction(a) && !CwdAction(a)
    ensures var s' := ActGraph(s, t, s.threads[t], a);
      && Moves(s, s', t) && !InWindow(s.threads[t]) && !InWindow(s'.threads[t])
      && s'.migrating == s.migrating && s'.graphs.retiring == s.graphs.retiring && s'.table == s.table
  {
  }

  lemma StepKeepsLock(s: State, e: Event)
    requires Enabled(s, e) && LockInv(s) && TableInv(s.table) && (e.tid < |s.threads| ==> PcOk(s, s.threads[e.tid]))
    ensures LockInv(Apply(s, e))
  {
    var s' := Apply(s, e);
    var t := e.tid;
    if e.action.Spawn? {
      assert forall i :: 0 <= i < |s.threads| ==> s'.threads[i] == s.threads[i];
    } else if SwitchAction(e.action) {
      if !s.migrating { NoRetiring(s); }
      SwitchLock(s, t, e.action);
      OwnerLock(s, s', t);
    } else if s.migrating && !InWindow(s.threads[t]) {
      BystanderMoves(s, e);
      BystanderLock(s, s', t);
    } else {
      if FdAction(e.action) { FdLock(s, t, e.action); }
      else if CwdAction(e.action) { CwdLock(s, t, e.action); }
      else { GraphLock(s, t, e.action); }
      if !s.migrating { NoRetiring(s); }
      OwnerLock(s, s', t);
    }
  }

  // ---- the program counters -----------------------------------------------------------

  lemma DisplacedStays(ts: seq<Pc>, t: Tid, p: Pc, n: Graph)
    requires t < |ts| && Displaced(n) in ts && ts[t] != Displaced(n)
    ensures Displaced(n) in ts[t := p]
  {
    var i :| 0 <= i < |ts| && ts[i] == Displaced(n);
    assert ts[t := p][i] == Displaced(n);
  }

  lemma OutcomePc(s: State, s': State, t: Tid, n: Graph, c: Option<Inode>)
    requires t < |s.threads| && SwitchOutcome(s, s', t, n, c) && BeforeExchange(s, n) && CwdCopy(s, n, c)
    requires !s.threads[t].Displaced?
    ensures PcOk(s', s'.threads[t]) && s'.graphs.active.Some? == (s.graphs.active.Some? || !s'.threads[t].MigrateFd?)
  {
    if Displaced(n) in s.threads {
      DisplacedStays(s.threads, t, s'.threads[t], n);
    }
  }

  /** A switch step leaves its own thread in good order and never clears the active slot. */
  lemma SwitchPc(s: State, t: Tid, a: Action)
    requires t < |s.threads| && Can(s, s.threads[t], a) && SwitchAction(a)
    requires LockInv(s) && PcOk(s, s.threads[t])
    ensures var s' := ActSwitch(s, t, s.threads[t], a);
      PcOk(s', s'.threads[t]) && (s.graphs.active.Some? ==> s'.graphs.active.Some?)
  {
    var p := s.threads[t];
    var s' := ActSwitch(s, t, p, a);
    match a
    case BeginActive => NoRetiring(s);
    case LookupDone(ok) =>
      if ok && s.cwd.None? {
        MigrateFromOutcome(s, t, p.target, None, 0);
        OutcomePc(s, s', t, p.target, None);
      } else if ok && Displaced(p.target) in s.threads {
        DisplacedStays(s.threads, t, s'.threads[t], p.target);
      }
    case CwdRefreshed(ok) =>
      if ok {
        var c := Some(Inode(p.target, s.cwd.value.gfid));
        MigrateFromOutcome(s, t, p.target, c, 0);
        OutcomePc(s, s', t, p.target, c);
      }
    case FdMigrated(r) =>
      var s1 := s.(table := Migrated(s.table, s.table.open[p.index], p.target, r));
      MigrateFromOutcome(s1, t, p.target, p.newCwd, p.index + 1);
      OutcomePc(s1, s', t, p.target, p.newCwd);
    case CwdInstalled(ok) =>
  }

  /** What a step of a thread at `p` guarantees to every thread outside a window. */
  predicate Grows(s: State, s': State, p: Pc) {
    && (s.graphs.active.Some? ==> s'.graphs.active.Some?)
    && s.table.fds.Keys <= s'.table.fds.Keys
    && (forall b :: b in s.table.slots && b !in s.table.open && !(p.Opened? && p.glfd == b)
                    ==> b in s'.table.slots && b !in s'.table.open)
  }

  lemma FdGrows(s: State, t: Tid, a: Action)
    requires t < |s.threads| && Can(s, s.threads[t], a) && FdAction(a)
    requires TableInv(s.table) && PcOk(s, s.threads[t])
    ensures Grows(s, ActFd(s, t, s.threads[t], a), s.threads[t])
  {
    var p := s.threads[t];
    match a
    case OpenGlfd(b, h, gfid) =>
    case BindGlfd =>
    case AbortOpen => WithoutMembers(s.table.open, p.glfd);
    case BeginResolve(b) =>
    case FdResolved(r) => if r.Some? { ResolvedInv(s, p.held, p.glfd, r.value); }
    case UnrefFd =>
    case Destroy(b) => WithoutMembers(s.table.open, b);
  }

  lemma StepGrows(s: State, e: Event)
    requires Enabled(s, e) && LockInv(s) && TableInv(s.table) && !e.action.Spawn? && PcOk(s, s.threads[e.tid])
    ensures var s' := Apply(s, e);
      Moves(s, s', e.tid) && TableInv(s'.table) && Grows(s, s', s.threads[e.tid]) && PcOk(s', s'.threads[e.tid])
  {
    var t := e.tid;
    var p := s.threads[t];
    if SwitchAction(e.action) {
      SwitchTable(s, t, e.action, 0);
      SwitchPc(s, t, e.action);
      if e.action.FdMigrated? {
        MigratedInv(s.table, s.table.open[p.index], p.target, e.action.result);
      }
    } else if FdAction(e.action) {
      FdFrame(s, t, e.action, 0);
      FdActionTable(s, t, e.action);
      FdGrows(s, t, e.action);
    } else if CwdAction(e.action) {
      CwdFrame(s, t, e.action, 0);
    } else {
      GraphLock(s, t, e.action);
    }
  }

  lemma FrozenPc(s: State, s': State, p: Pc)
    requires PcOk(s, p) && InWindow(p) && Frozen(s, s') && (s.graphs.next.Some? ==> s'.graphs.next.Some?)
    requires forall n :: Displaced(n) in s.threads ==> Displaced(n) in s'.threads
    requires forall n :: s.graphs.next == Some(n) ==> s'.graphs.next == Some(n) || Displaced(n) in s'.threads
    ensures PcOk(s', p)
  {
  }

  lemma StepKeepsOk(s: State, e: Event)
    requires Enabled(s, e) && LockInv(s) && TableInv(s.table) && OpenedInv(s) && AllOk(s)
    ensures AllOk(Apply(s, e)) && TableInv(Apply(s, e).table)
  {
    var s' := Apply(s, e);
    var t := e.tid;
    if e.action.Spawn? {
      forall i | 0 <= i < |s'.threads| ensures PcOk(s', s'.threads[i]) {
        if i < |s.threads| {
          assert PcOk(s, s.threads[i]);
          if InWindow(s.threads[i]) { OthersFrozen(s, e); FrozenPc(s, s', s.threads[i]); }
        }
      }
    } else {
      StepGrows(s, e);
      forall i | 0 <= i < |s'.threads| ensures PcOk(s', s'.threads[i]) {
        if i != t {
          OtherThreadOk(s, e, i);
        }
      }
    }
  }

  lemma OtherThreadOk(s: State, e: Event, i: Tid)
    requires Enabled(s, e) && !e.action.Spawn? && i < |s.threads| && i != e.tid
    requires LockInv(s) && TableInv(s.table) && OpenedInv(s) && PcOk(s, s.threads[i])
    requires Grows(s, Apply(s, e), s.threads[e.tid])
    ensures PcOk(Apply(s, e), s.threads[i])
  {
    var p := s.threads[i];
    if InWindow(p) {
      OthersFrozen(s, e);
      FrozenPc(s, Apply(s, e), p);
    } else {
      assert !SameGlfd(p, s.threads[e.tid]);
    }
  }

  lemma SwitchNotOpened(s: State, t: Tid, a: Action)
    requires t < |s.threads| && Can(s, s.threads[t], a) && SwitchAction(a)
    ensures var s' := ActSwitch(s, t, s.threads[t], a); Moves(s, s', t) && !s'.threads[t].Opened?
  {
    var p := s.threads[t];
    match a
    case BeginActive =>
    case LookupDone(ok) => if ok && s.cwd.None? { MigrateFromOutcome(s, t, p.target, None, 0); }
    case CwdRefreshed(ok) =>
      if ok { MigrateFromOutcome(s, t, p.target, Some(Inode(p.target, s.cwd.value.gfid)), 0); }
    case FdMigrated(r) =>
      var s1 := s.(table := Migrated(s.table, s.table.open[p.index], p.target, r));
      MigrateFromOutcome(s1, t, p.target, p.newCwd, p.index + 1);
    case CwdInstalled(ok) =>
  }

  lemma OpenedFresh(s: State, t: Tid, a: Action)
    requires t < |s.threads| && Can(s, s.threads[t], a) && FdAction(a)
    ensures var s' := ActFd(s, t, s.threads[t], a);
      Moves(s, s', t) && (s'.threads[t].Opened? ==> s'.threads[t].glfd !in s.table.slots)
  {
  }

  lemma NewlyOpened(s: State, e: Event)
    requires Enabled(s, e) && !e.action.Spawn?
    ensures var s' := Apply(s, e);
      Moves(s, s', e.tid) && (s'.threads[e.tid].Opened? ==> s'.threads[e.tid].glfd !in s.table.slots)
  {
    if SwitchAction(e.action) { SwitchNotOpened(s, e.tid, e.action); }
    else if FdAction(e.action) { OpenedFresh(s, e.tid, e.action); }
    else if CwdAction(e.action) { CwdFrame(s, e.tid, e.action, 0); }
    else { GraphLock(s, e.tid, e.action); }
  }

  lemma StepKeepsOpened(s: State, e: Event)
    requires Enabled(s, e) && OpenedInv(s) && AllOk(s)
    ensures OpenedInv(Apply(s, e))
  {
    var s' := Apply(s, e);
    if !e.action.Spawn? {
      NewlyOpened(s, e);
      forall i | 0 <= i < |s.threads| && i != e.tid ensures !SameGlfd(s'.threads[i], s'.threads[e.tid]) {
        assert PcOk(s, s.threads[i]);
      }
    }
  }

  // ---- PARENT_DOWN --------------------------------------------------------------------

  /** No notification, and every count is what it was or has been raised. */
  predicate Raised(gs: Graphs, gs': Graphs) {
    && gs'.down == gs.down
    && (forall g :: g in gs'.winds ==>
          (g in gs.winds && gs'.winds[g] == gs.winds[g]) || gs'.winds[g] > Count(gs.winds, g))
  }

  lemma SwitchRaises(s: State, t: Tid, a: Action)
    requires t < |s.threads| && Can(s, s.threads[t], a) && SwitchAction(a)
    ensures Raised(s.graphs, ActSwitch(s, t, s.threads[t], a).graphs)
  {
    var p := s.threads[t];
    match a
    case BeginActive =>
    case LookupDone(ok) => if ok && s.cwd.None? { MigrateFromOutcome(s, t, p.target, None, 0); }
    case CwdRefreshed(ok) =>
      if ok { MigrateFromOutcome(s, t, p.target, Some(Inode(p.target, s.cwd.value.gfid)), 0); }
    case FdMigrated(r) =>
      var s1 := s.(table := Migrated(s.table, s.table.open[p.index], p.target, r));
      MigrateFromOutcome(s1, t, p.target, p.newCwd, p.index + 1);
    case CwdInstalled(ok) =>
  }

  /** Only glfs_subvol_done lowers a count or sends PARENT_DOWN. */
  lemma StepRaises(s: State, e: Event)
    requires Enabled(s, e) && !e.action.SubvolDone?
    ensures Raised(s.graphs, Apply(s, e).graphs)
  {
    if e.action.Spawn? {}
    else if SwitchAction(e.action) { SwitchRaises(s, e.tid, e.action); }
    else if FdAction(e.action) { FdFrame(s, e.tid, e.action, 0); }
    else if CwdAction(e.action) { CwdFrame(s, e.tid, e.action, 0); }
  }

  lemma CountsNotNegative(s: State, g: Graph)
    requires Excess(s, g) == 0
    ensures Winds(s, g) == InSlots(s.graphs, g) + Owned(s.threads, g) >= 0
  {
  }

  lemma StepKeepsDown(s: State, e: Event)
    requires Enabled(s, e) && DownInv(s) && (forall g :: Excess(s, g) == 0)
    ensures DownInv(Apply(s, e))
  {
    var gs := Apply(s, e).graphs;
    if e.action.SubvolDone? {
      assert gs == s.graphs.Drop(ToDrop(s.threads[e.tid]).value);
    } else {
      StepRaises(s, e);
      forall g | g in gs.winds && gs.winds[g] == 0 ensures g in gs.down {
        CountsNotNegative(s, g);
      }
    }
  }

  // ---- the whole invariant, over whole runs ------------------------------------------

  lemma StepKeepsInv(s: State, e: Event)
    requires Enabled(s, e) && Inv(s)
    ensures Inv(Apply(s, e))
  {
    StepKeepsLock(s, e);
    StepKeepsOk(s, e);
    StepKeepsOpened(s, e);
    StepKeepsDown(s, e);
    forall g ensures Excess(Apply(s, e), g) == 0 { StepKeepsExcess(s, e, g); }
    forall f ensures FdExcess(Apply(s, e), f) == 0 { StepKeepsFdExcess(s, e, f); }
  }

  lemma InitialInv()
    ensures Inv(INITIAL)
  {
    forall f ensures FdExcess(INITIAL, f) == 0 {
      assert StoredIn(INITIAL.table, f) == {};
    }
  }

  lemma {:induction false} RunKeepsInv(s: State, run: seq<Event>)
    requires Inv(s) && Legal(s, run)
    ensures Inv(Exec(s, run))
    decreases |run|
  {
    if run != [] {
      StepKeepsInv(s, run[0]);
      RunKeepsInv(Apply(s, run[0]), run[1..]);
    }
  }

  /** In every reachable state the winds of each graph are exactly its references: the slots
      that point to it, the calls that hold it, and displaced references not yet dropped. */
  lemma WindsAreReferences(run: seq<Event>, g: Graph)
    requires Legal(INITIAL, run)
    ensures var s := Exec(INITIAL, run); Winds(s, g) == InSlots(s.graphs, g) + Owned(s.threads, g)
  {
    InitialInv();
    RunKeepsInv(INITIAL, run);
    CountsNotNegative(Exec(INITIAL, run), g);
  }
}
