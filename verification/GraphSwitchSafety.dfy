/**
  Safety of the graph switch: what every step keeps, under every interleaving.
 */
module GraphSwitchSafety {
  import opened Wrappers
  import opened GraphSwitch

  // ---- counting references to a graph ------------------------------------------------

  function One(b: bool): nat {
    if b then 1 else 0
  }

  /** How many references to graph `g` a thread at `p` owns. */
  function Owns(p: Pc, g: Graph): nat {
    match p
    case DropOld(o, r) => One(o == g) + One(r == Some(g))
    case Holding(h) => One(h == g)
    case Opened(h, _) => One(h == g)
    case ResolveFd(h, _) => One(h == g)
    case UsingFd(h, _) => One(h == g)
    case SetCwd(h, _) => One(h == g)
    case GetCwd(h) => One(h == g)
    case Displaced(o) => One(o == g)
    case _ => 0
  }

  function Owned(ts: seq<Pc>, g: Graph): nat {
    if ts == [] then 0 else Owns(ts[0], g) + Owned(ts[1..], g)
  }

  /** References held by the three slots of the glfs object. */
  function InSlots(gs: Graphs, g: Graph): nat {
    One(gs.active == Some(g)) + One(gs.next == Some(g)) + One(gs.retiring == Some(g))
  }

  /** The part of `winds` that the slots do not account for. */
  function Slack(gs: Graphs, g: Graph): int {
    Count(gs.winds, g) - InSlots(gs, g)
  }

  lemma {:induction false} OwnedUpdate(ts: seq<Pc>, t: Tid, p: Pc, g: Graph)
    requires t < |ts|
    ensures Owned(ts[t := p], g) == Owned(ts, g) - Owns(ts[t], g) + Owns(p, g)
  {
    if t == 0 {
      assert ts[t := p][1..] == ts[1..];
    } else {
      assert ts[t := p][1..] == ts[1..][t - 1 := p];
      OwnedUpdate(ts[1..], t - 1, p, g);
    }
  }

  lemma {:induction false} OwnedAppend(ts: seq<Pc>, p: Pc, g: Graph)
    ensures Owned(ts + [p], g) == Owned(ts, g) + Owns(p, g)
  {
    if ts != [] {
      assert (ts + [p])[1..] == ts[1..] + [p];
      OwnedAppend(ts[1..], p, g);
    }
  }

  lemma {:induction false} OwnedAtLeast(ts: seq<Pc>, t: Tid, g: Graph)
    requires t < |ts|
    ensures Owned(ts, g) >= Owns(ts[t], g)
  {
    if t > 0 {
      OwnedAtLeast(ts[1..], t - 1, g);
    }
  }

  lemma LeaveSlack(gs: Graphs, ret: Option<Graph>, g: Graph)
    ensures Slack(gs.Leave(ret), g) == Slack(gs, g) + Owns(LeavePc(gs.retiring, ret), g)
  {
  }

  lemma ExchangeSlack(gs: Graphs, g: Graph)
    requires gs.retiring.None?
    ensures Slack(gs.Exchange(), g) == Slack(gs, g)
  {
  }

  lemma DropSlack(gs: Graphs, o: Graph, g: Graph)
    ensures Slack(gs.Drop(o), g) == Slack(gs, g) - One(o == g)
  {
  }

  lemma InstallSlack(gs: Graphs, h: Graph, g: Graph)
    ensures Slack(gs.Install(h), g) == Slack(gs, g) + One(gs.next == Some(g))
  {
  }

  // ---- what holds while a thread is at a program counter -----------------------------

  /** The target of a switch before the exchange: in the next slot, or displaced from it by
      a thread that cannot drop it before the migration ends. */
  predicate BeforeExchange(s: State, n: Graph) {
    s.graphs.next.Some? && s.graphs.retiring.None? && (s.graphs.next == Some(n) || Displaced(n) in s.threads)
  }

  predicate PcOk(s: State, p: Pc) {
    match p
    case Idle => true
    case Notified => true
    case Displaced(_) => true
    case FirstLookup(n) => BeforeExchange(s, n)
    case RefreshCwd(n) => BeforeExchange(s, n) && s.cwd.Some?
    case MigrateFd(n, c, i) => BeforeExchange(s, n) && i < |s.table.open| && CwdCopy(s, n, c)
    case InstallCwd(n, _) => s.graphs.active.Some? && Displaced(n) in s.threads
    case DropOld(_, r) => s.graphs.active.Some?
    case Holding(_) => s.graphs.active.Some?
    case Opened(_, b) => s.graphs.active.Some? && b in s.table.slots && b !in s.table.open
    case ResolveFd(g, b) => s.graphs.active.Some? && b in s.table.open && s.table.At(b).graph != g
    case UsingFd(_, f) => s.graphs.active.Some? && f in s.table.fds
    case SetCwd(_, _) => s.graphs.active.Some?
    case GetCwd(_) => s.graphs.active.Some?
    case Closing(f) => f in s.table.fds
  }

  /** `c` is the current cwd looked up again on graph `n`. */
  predicate CwdCopy(s: State, n: Graph, c: Option<Inode>) {
    c == if s.cwd.Some? then Some(Inode(n, s.cwd.value.gfid)) else None
  }

  // ---- every step keeps the balance of graph references ------------------------------

  /** How far `winds` is from the number of references; zero in every reachable state. */
  function Excess(s: State, g: Graph): int {
    Slack(s.graphs, g) - Owned(s.threads, g)
  }

  /** The step of thread `t` to `s'` changes its own program counter only. */
  predicate Moves(s: State, s': State, t: Tid) {
    t < |s.threads| && |s'.threads| == |s.threads| && s'.threads == s.threads[t := s'.threads[t]]
  }

  lemma MoveExcess(s: State, s': State, t: Tid, g: Graph)
    requires Moves(s, s', t)
    requires Slack(s'.graphs, g) - Owns(s'.threads[t], g) == Slack(s.graphs, g) - Owns(s.threads[t], g)
    ensures Excess(s', g) == Excess(s, g)
  {
    OwnedUpdate(s.threads, t, s'.threads[t], g);
  }

  lemma LeaveExcess(s: State, t: Tid, ret: Option<Graph>, g: Graph)
    requires t < |s.threads| && Owns(s.threads[t], g) == 0
    ensures Excess(Leave(s, t, ret), g) == Excess(s, g)
  {
    LeaveSlack(s.graphs, ret, g);
    MoveExcess(s, Leave(s, t, ret), t, g);
  }

  lemma FinishExcess(s: State, t: Tid, n: Graph, newCwd: Option<Inode>, g: Graph)
    requires t < |s.threads| && Owns(s.threads[t], g) == 0 && s.graphs.retiring.None?
    ensures Excess(Finish(s, t, n, newCwd), g) == Excess(s, g)
  {
    ExchangeSlack(s.graphs, g);
    var s1 := s.(graphs := s.graphs.Exchange());
    if newCwd.None? {
      LeaveExcess(s1, t, Some(n), g);
    } else if s1.graphs.active == Some(newCwd.value.graph) {
      LeaveExcess(s1.(cwd := newCwd), t, Some(n), g);
    } else {
      MoveExcess(s, s1.Window(t, InstallCwd(n, newCwd.value)), t, g);
    }
  }

  lemma MigrateFromExcess(s: State, t: Tid, n: Graph, newCwd: Option<Inode>, i: nat, g: Graph)
    requires t < |s.threads| && i <= |s.table.open| && Owns(s.threads[t], g) == 0 && s.graphs.retiring.None?
    ensures Excess(MigrateFrom(s, t, n, newCwd, i), g) == Excess(s, g)
  {
    var j := s.table.NextMigratable(i);
    if j < |s.table.open| {
      MoveExcess(s, s.Window(t, MigrateFd(n, newCwd, j)), t, g);
    } else {
      FinishExcess(s, t, n, newCwd, g);
    }
  }

  lemma SwitchExcess(s: State, t: Tid, a: Action, g: Graph)
    requires t < |s.threads| && Can(s, s.threads[t], a) && PcOk(s, s.threads[t]) && SwitchAction(a)
    ensures Excess(ActSwitch(s, t, s.threads[t], a), g) == Excess(s, g)
  {
    var p := s.threads[t];
    match a
    case BeginActive =>
      if s.graphs.next.None? { LeaveExcess(s, t, s.graphs.active, g); }
      else { MoveExcess(s, BeginSwitch(s, t), t, g); }
    case LookupDone(ok) =>
      if !ok { LeaveExcess(s, t, None, g); }
      else if s.cwd.Some? { MoveExcess(s, s.Window(t, RefreshCwd(p.target)), t, g); }
      else { MigrateFromExcess(s, t, p.target, None, 0, g); }
    case CwdRefreshed(ok) =>
      if !ok { LeaveExcess(s, t, None, g); }
      else { MigrateFromExcess(s, t, p.target, Some(Inode(p.target, s.cwd.value.gfid)), 0, g); }
    case FdMigrated(r) =>
      var s1 := s.(table := Migrated(s.table, s.table.open[p.index], p.target, r));
      MigrateFromExcess(s1, t, p.target, p.newCwd, p.index + 1, g);
    case CwdInstalled(ok) =>
      LeaveExcess(s.(cwd := Refreshed(s, p.staleCwd.gfid, ok)), t, Some(p.target), g);
  }

  lemma DropExcess(s: State, t: Tid, g: Graph)
    requires t < |s.threads| && ToDrop(s.threads[t]).Some?
    ensures var p := s.threads[t];
      Excess(s.(graphs := s.graphs.Drop(ToDrop(p).value)).Goto(t, AfterDrop(p)), g) == Excess(s, g)
  {
    var p := s.threads[t];
    assert Owns(p, g) == Owns(AfterDrop(p), g) + One(ToDrop(p) == Some(g));
    DropSlack(s.graphs, ToDrop(p).value, g);
    MoveExcess(s, s.(graphs := s.graphs.Drop(ToDrop(p).value)).Goto(t, AfterDrop(p)), t, g);
  }

  lemma SetupExcess(s: State, t: Tid, h: Graph, ok: bool, g: Graph)
    requires t < |s.threads| && s.threads[t].Idle?
    ensures Excess(Setup(s, t, h, ok), g) == Excess(s, g)
  {
    InstallSlack(s.graphs, h, g);
    MoveExcess(s, Setup(s, t, h, ok), t, g);
  }

  lemma GraphExcess(s: State, t: Tid, a: Action, g: Graph)
    requires t < |s.threads| && Can(s, s.threads[t], a)
    requires !SwitchAction(a) && !FdAction(a) && !CwdAction(a)
    ensures Excess(ActGraph(s, t, s.threads[t], a), g) == Excess(s, g)
  {
    var p := s.threads[t];
    match a
    case GraphSetup(h, ok) => SetupExcess(s, t, h, ok, g);
    case SubvolDone => DropExcess(s, t, g);
    case InitDone => MoveExcess(s, ActGraph(s, t, p, a), t, g);
  }

  /** Fd and cwd actions touch neither slots nor counts, and their thread keeps its graph. */
  lemma FdFrame(s: State, t: Tid, a: Action, g: Graph)
    requires t < |s.threads| && Can(s, s.threads[t], a) && FdAction(a)
    ensures var s' := ActFd(s, t, s.threads[t], a);
      s'.graphs == s.graphs && s'.cwd == s.cwd && Moves(s, s', t) && Owns(s'.threads[t], g) == Owns(s.threads[t], g)
  {
  }

  lemma CwdFrame(s: State, t: Tid, a: Action, g: Graph)
    requires t < |s.threads| && Can(s, s.threads[t], a) && CwdAction(a)
    ensures var s' := ActCwd(s, t, s.threads[t], a);
      s'.graphs == s.graphs && s'.table == s.table && Moves(s, s', t) && Owns(s'.threads[t], g) == Owns(s.threads[t], g)
  {
  }

  /** No step of any thread creates or loses a graph reference. */
  lemma StepKeepsExcess(s: State, e: Event, g: Graph)
    requires Enabled(s, e) && (e.tid < |s.threads| ==> PcOk(s, s.threads[e.tid]))
    ensures Excess(Apply(s, e), g) == Excess(s, g)
  {
    if e.action.Spawn? {
      OwnedAppend(s.threads, Idle, g);
    } else if SwitchAction(e.action) {
      SwitchExcess(s, e.tid, e.action, g);
    } else if FdAction(e.action) {
      FdFrame(s, e.tid, e.action, g);
      MoveExcess(s, Apply(s, e), e.tid, g);
    } else if CwdAction(e.action) {
      CwdFrame(s, e.tid, e.action, g);
      MoveExcess(s, Apply(s, e), e.tid, g);
    } else {
      GraphExcess(s, e.tid, e.action, g);
    }
  }
}
