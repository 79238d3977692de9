/**
  The graph switch of libgfapi as a step system.

  One `glfs` object is shared by any number of calls ("threads"). A step is one region that
  runs with `fs->mutex` held, so interleaving whole regions loses no behaviour. Two steps run
  without it: OpenGlfd makes an fd and a glfd that no other thread knows yet, and UnrefFd is one
  decrement under a lock of its own. A thread that drops the mutex in the middle of an operation (a "window")
  leaves `migrating` set and keeps its progress in its program counter. Results of `syncop_*`
  calls, and the choice of which thread runs, are the actions of the run.
 */
module GraphSwitch {
  import opened Wrappers

  type Graph = nat    // the top translator of a graph
  type FdId = nat     // an fd_t
  type Glfd = nat     // a glfs_fd
  type Gfid = nat
  type Tid = nat

  const NULL_GFID: Gfid := 0

  datatype Inode = Inode(graph: Graph, gfid: Gfid)
  datatype Fd = Fd(inode: Inode, refs: int)

  datatype Pc =
    | Idle
      // glfs_active_subvol: windows of a switch to `target`
    | FirstLookup(target: Graph)
    | RefreshCwd(target: Graph)
    | MigrateFd(target: Graph, newCwd: Option<Inode>, index: nat)
    | InstallCwd(target: Graph, staleCwd: Inode)
      // the switch is done, the reference of the old graph is still to be dropped
    | DropOld(dropped: Graph, result: Option<Graph>)
      // a call that owns a reference to `held`
    | Holding(held: Graph)
    | Opened(held: Graph, glfd: Glfd)
    | ResolveFd(held: Graph, glfd: Glfd)
    | UsingFd(held: Graph, fd: FdId)
    | SetCwd(held: Graph, inode: Inode)
    | GetCwd(held: Graph)
      // glfs_fd_destroy after the list removal
    | Closing(fd: FdId)
      // bottom-up notification
    | Displaced(dropped: Graph)
    | Notified

  /** The graph slots of the glfs object and the reference counts of the graphs. */
  datatype Graphs = Graphs(
    active: Option<Graph>, next: Option<Graph>, retiring: Option<Graph>,
    winds: map<Graph, int>, switched: set<Graph>,
    down: seq<Graph>)        // graphs whose last reference was dropped: PARENT_DOWN is due
  {
    /** The tail of priv_glfs_active_subvol once __glfs_active_subvol returned `ret`. */
    function Leave(ret: Option<Graph>): Graphs {
      this.(winds := if ret.Some? then Bump(winds, ret.value, 1) else winds,
            retiring := None,
            switched := if retiring.Some? then switched + {retiring.value} else switched)
    }

    /** The slot exchange at the end of __glfs_active_subvol. */
    function Exchange(): Graphs {
      this.(retiring := active, active := next, next := None)
    }

    /** The critical region of priv_glfs_subvol_done. */
    function Drop(g: Graph): Graphs {
      var w := Bump(winds, g, -1);
      this.(winds := w, down := if Count(w, g) == 0 then down + [g] else down)
    }

    /** graph_setup finds nothing to do for `g`. */
    predicate Spurious(g: Graph) {
      g in switched || active == Some(g) || next == Some(g)
    }

    /** The critical region of graph_setup for a graph that is not spurious. */
    function Install(g: Graph): Graphs {
      this.(next := Some(g), winds := Bump(winds, g, 1))
    }
  }

  function Count(w: map<Graph, int>, g: Graph): int {
    if g in w then w[g] else 0
  }

  function Bump(w: map<Graph, int>, g: Graph, d: int): map<Graph, int> {
    w[g := Count(w, g) + d]
  }

  /** The list of open glfds, the fd each glfd stores, and the fds themselves. */
  datatype Table = Table(open: seq<Glfd>, slots: map<Glfd, FdId>, fds: map<FdId, Fd>) {
    function Node(f: FdId): Fd {
      if f in fds then fds[f] else Fd(Inode(0, NULL_GFID), 0)
    }

    function Stored(b: Glfd): FdId {
      if b in slots then slots[b] else 0
    }

    /** The inode behind the fd that glfd `b` stores. */
    function At(b: Glfd): Inode {
      Node(Stored(b)).inode
    }

    function AddRef(f: FdId, d: int): Table {
      this.(fds := fds[f := Fd(Node(f).inode, Node(f).refs + d)])
    }

    /** A new fd for the inode `i`, held by one caller. */
    function Create(f: FdId, i: Inode): Table {
      this.(fds := fds[f := Fd(i, 1)])
    }

    function Store(b: Glfd, f: FdId): Table {
      this.(slots := slots[b := f])
    }

    /** fd_unref of the fd stored in `b`, then the slot takes over one reference to `f`. */
    function Replace(b: Glfd, f: FdId): Table {
      AddRef(Stored(b), -1).Store(b, f)
    }

    /** The slot of `b` is gone; its reference belongs to the caller now. */
    function Forget(b: Glfd): Table {
      this.(open := Without(open, b), slots := slots - {b})
    }

    function Bind(b: Glfd): Table {
      this.(open := open + [b])
    }

    /** The first open glfd at or after `i` whose inode has a gfid; the others are skipped. */
    function NextMigratable(i: nat): (j: nat)
      requires i <= |open|
      ensures i <= j <= |open|
      decreases |open| - i
    {
      if i == |open| || At(open[i]).gfid != NULL_GFID then i else NextMigratable(i + 1)
    }
  }

  function Without(q: seq<Glfd>, b: Glfd): seq<Glfd> {
    if q == [] then [] else if q[0] == b then q[1..] else [q[0]] + Without(q[1..], b)
  }

  datatype State = State(
    graphs: Graphs, table: Table, cwd: Option<Inode>,
    migrating: bool, init: bool, threads: seq<Pc>)
  {
    /** glfs_lock would be granted: initialised, and no migration has dropped the mutex. */
    predicate LockFree() {
      init && !migrating
    }

    function Goto(t: Tid, p: Pc): State
      requires t < |threads|
    {
      this.(threads := threads[t := p])
    }

    /** Set migration_in_progress and drop the mutex. */
    function Window(t: Tid, p: Pc): State
      requires t < |threads|
    {
      this.(threads := threads[t := p], migrating := true)
    }

    /** Clear migration_in_progress and release the mutex. */
    function Close(t: Tid, p: Pc): State
      requires t < |threads|
    {
      this.(threads := threads[t := p], migrating := false)
    }
  }

  datatype Action =
    | Spawn
    | GraphSetup(graph: Graph, tableOk: bool)
    | InitDone
    | BeginActive
    | LookupDone(ok: bool)
    | CwdRefreshed(ok: bool)
    | FdMigrated(result: Option<FdId>)
    | CwdInstalled(ok: bool)
    | SubvolDone
    | OpenGlfd(newGlfd: Glfd, newFd: FdId, gfid: Gfid)
    | BindGlfd
    | AbortOpen
    | BeginResolve(bound: Glfd)
    | FdResolved(result: Option<FdId>)
    | UnrefFd
    | Destroy(bound: Glfd)
    | BeginCwdSet(inode: Inode)
    | CwdSetDone(ok: bool)
    | BeginCwdGet
    | CwdGetDone

  datatype Event = Event(tid: Tid, action: Action)

  const INITIAL: State :=
    State(Graphs(None, None, None, map[], {}, []), Table([], map[], map[]), None, false, false, [])

  predicate InSwitch(p: Pc) {
    p.FirstLookup? || p.RefreshCwd? || p.MigrateFd? || p.InstallCwd?
  }

  predicate InWindow(p: Pc) {
    InSwitch(p) || p.ResolveFd? || p.SetCwd? || p.GetCwd?
  }

  function Resting(held: Option<Graph>): Pc {
    match held
    case None => Idle
    case Some(g) => Holding(g)
  }

  // ---- glfs_active_subvol ------------------------------------------------------------

  function LeavePc(retiring: Option<Graph>, ret: Option<Graph>): Pc {
    if retiring.Some? then DropOld(retiring.value, ret) else Resting(ret)
  }

  function Leave(s: State, t: Tid, ret: Option<Graph>): State
    requires t < |s.threads|
  {
    s.(graphs := s.graphs.Leave(ret)).Close(t, LeavePc(s.graphs.retiring, ret))
  }

  function BeginSwitch(s: State, t: Tid): State
    requires t < |s.threads|
  {
    match s.graphs.next
    case None => Leave(s, t, s.graphs.active)
    case Some(n) => s.Window(t, FirstLookup(n))
  }

  /** The end of __glfs_active_subvol, up to its return or to the extra refresh that
      __glfs_cwd_set needs when `next` was replaced meanwhile. */
  function Finish(s: State, t: Tid, n: Graph, newCwd: Option<Inode>): State
    requires t < |s.threads|
  {
    var s1 := s.(graphs := s.graphs.Exchange());
    if newCwd.None? then Leave(s1, t, Some(n))
    else if s1.graphs.active == Some(newCwd.value.graph) then Leave(s1.(cwd := newCwd), t, Some(n))
    else s1.Window(t, InstallCwd(n, newCwd.value))
  }

  /** The open-fd loop of __glfs_migrate_openfds from position `i`. */
  function MigrateFrom(s: State, t: Tid, n: Graph, newCwd: Option<Inode>, i: nat): State
    requires t < |s.threads| && i <= |s.table.open|
  {
    var j := s.table.NextMigratable(i);
    if j < |s.table.open| then s.Window(t, MigrateFd(n, newCwd, j)) else Finish(s, t, n, newCwd)
  }

  function AfterLookup(s: State, t: Tid, n: Graph, ok: bool): State
    requires t < |s.threads|
  {
    if !ok then Leave(s, t, None)
    else if s.cwd.Some? then s.Window(t, RefreshCwd(n))
    else MigrateFrom(s, t, n, None, 0)
  }

  function AfterCwdRefresh(s: State, t: Tid, n: Graph, ok: bool): State
    requires t < |s.threads| && s.cwd.Some?
  {
    if !ok then Leave(s, t, None)
    else MigrateFrom(s, t, n, Some(Inode(n, s.cwd.value.gfid)), 0)
  }

  /** The effect of one __glfs_migrate_fd on the table: `result` is NULL, the fd already
      stored (it was on the target graph), or a new fd on the target graph. */
  function Migrated(table: Table, b: Glfd, n: Graph, result: Option<FdId>): Table {
    if result.None? || result.value == table.Stored(b) then table
    else table.Create(result.value, Inode(n, table.At(b).gfid)).Replace(b, result.value)
  }

  function AfterFd(s: State, t: Tid, p: Pc, result: Option<FdId>): State
    requires t < |s.threads| && p.MigrateFd? && p.index < |s.table.open|
  {
    MigrateFrom(s.(table := Migrated(s.table, s.table.open[p.index], p.target, result)),
                t, p.target, p.newCwd, p.index + 1)
  }

  /** The cwd after a refresh on the active graph. */
  function Refreshed(s: State, gfid: Gfid, ok: bool): Option<Inode>
    requires s.graphs.active.Some?
  {
    if ok then Some(Inode(s.graphs.active.value, gfid)) else s.cwd
  }

  // ---- glfs_subvol_done and graph_setup ----------------------------------------------

  /** The graph a thread at `p` drops next. */
  function ToDrop(p: Pc): Option<Graph> {
    match p
    case DropOld(o, _) => Some(o)
    case Displaced(o) => Some(o)
    case Holding(h) => Some(h)
    case _ => None
  }

  function AfterDrop(p: Pc): Pc {
    match p
    case DropOld(_, r) => Resting(r)
    case Displaced(_) => Notified
    case _ => Idle
  }

  function Setup(s: State, t: Tid, g: Graph, tableOk: bool): State
    requires t < |s.threads|
  {
    if s.graphs.Spurious(g) || !tableOk then s.Goto(t, Notified)
    else s.(graphs := s.graphs.Install(g))
         .Goto(t, if s.graphs.next.Some? then Displaced(s.graphs.next.value) else Notified)
  }

  // ---- open fds and cwd --------------------------------------------------------------

  function BeginResolveFd(s: State, t: Tid, g: Graph, b: Glfd): State
    requires t < |s.threads|
  {
    if s.table.At(b).graph == g
    then s.(table := s.table.AddRef(s.table.Stored(b), 1)).Goto(t, UsingFd(g, s.table.Stored(b)))
    else s.Window(t, ResolveFd(g, b))
  }

  /** The table once __glfs_resolve_fd got the new fd `f` on graph `g` for glfd `b`: the slot
      advances only when `g` is the active graph. */
  function Resolved(s: State, g: Graph, b: Glfd, f: FdId): Table {
    var created := s.table.Create(f, Inode(g, s.table.At(b).gfid));
    if s.graphs.active == Some(g) then created.Replace(b, f).AddRef(f, 1) else created
  }

  function AfterResolve(s: State, t: Tid, g: Graph, b: Glfd, result: Option<FdId>): State
    requires t < |s.threads|
  {
    match result
    case None => s.Close(t, Holding(g))
    case Some(f) => s.(table := Resolved(s, g, b, f)).Close(t, UsingFd(g, f))
  }

  function BeginSetCwd(s: State, t: Tid, g: Graph, i: Inode): State
    requires t < |s.threads|
  {
    if s.graphs.active != Some(i.graph) then s.Window(t, SetCwd(g, i)) else s.(cwd := Some(i))
  }

  function BeginGetCwd(s: State, t: Tid, g: Graph): State
    requires t < |s.threads|
  {
    if s.cwd.None? || s.graphs.active == Some(s.cwd.value.graph) then s else s.Window(t, GetCwd(g))
  }

  // ---- steps and runs ----------------------------------------------------------------

  /** Which actions a thread can take. Top-down actions wait for glfs_lock; actions that
      close a window, and bottom-up actions, only need the mutex itself. */
  predicate Enabled(s: State, e: Event) {
    if e.action.Spawn? then e.tid == |s.threads| else e.tid < |s.threads| && Can(s, s.threads[e.tid], e.action)
  }

  predicate Can(s: State, p: Pc, a: Action) {
    match a
    case Spawn => false
    case GraphSetup(g, ok) => p.Idle? && (g in s.graphs.winds ==> ok)
    case InitDone => p.Notified?
    case BeginActive => p.Idle? && s.LockFree()
    case LookupDone(_) => p.FirstLookup?
    case CwdRefreshed(ok) => p.RefreshCwd? && s.cwd.Some? && (s.cwd.value.graph == p.target ==> ok)
    case FdMigrated(r) =>
      && p.MigrateFd? && p.index < |s.table.open|
      && FdResult(s.table, s.table.open[p.index], p.target, r)
    case CwdInstalled(_) => p.InstallCwd? && s.graphs.active.Some?
    case SubvolDone => ToDrop(p).Some? && s.LockFree()
    case OpenGlfd(b, f, _) => p.Holding? && b !in s.table.slots && f !in s.table.fds
    case BindGlfd => p.Opened? && s.LockFree()
    case AbortOpen => p.Opened? && s.LockFree()
    case BeginResolve(b) => p.Holding? && s.LockFree() && b in s.table.open
    case FdResolved(r) => p.ResolveFd? && FdResult(s.table, p.glfd, p.held, r)
    case UnrefFd => p.UsingFd? || p.Closing?
    case Destroy(b) => p.Idle? && s.LockFree() && b in s.table.open
    case BeginCwdSet(_) => p.Holding? && s.LockFree()
    case CwdSetDone(_) => p.SetCwd? && s.graphs.active.Some?
    case BeginCwdGet => p.Holding? && s.LockFree()
    case CwdGetDone => p.GetCwd?
  }

  /** What glfs_migrate_fd_safe can return for the fd stored in `b`. */
  predicate FdResult(table: Table, b: Glfd, n: Graph, r: Option<FdId>) {
    if table.At(b).graph == n then r == Some(table.Stored(b)) else r.Some? ==> r.value !in table.fds
  }

  function Apply(s: State, e: Event): State
    requires Enabled(s, e)
  {
    if e.action.Spawn? then s.(threads := s.threads + [Idle]) else Act(s, e.tid, s.threads[e.tid], e.action)
  }

  predicate SwitchAction(a: Action) {
    a.BeginActive? || a.LookupDone? || a.CwdRefreshed? || a.FdMigrated? || a.CwdInstalled?
  }

  predicate FdAction(a: Action) {
    a.OpenGlfd? || a.BindGlfd? || a.AbortOpen? || a.BeginResolve? || a.FdResolved? || a.UnrefFd? || a.Destroy?
  }

  predicate CwdAction(a: Action) {
    a.BeginCwdSet? || a.CwdSetDone? || a.BeginCwdGet? || a.CwdGetDone?
  }

  function Act(s: State, t: Tid, p: Pc, a: Action): State
    requires t < |s.threads| && Can(s, p, a)
  {
    if SwitchAction(a) then ActSwitch(s, t, p, a)
    else if FdAction(a) then ActFd(s, t, p, a)
    else if CwdAction(a) then ActCwd(s, t, p, a)
    else ActGraph(s, t, p, a)
  }

  /** glfs_active_subvol. */
  function ActSwitch(s: State, t: Tid, p: Pc, a: Action): State
    requires t < |s.threads| && Can(s, p, a) && SwitchAction(a)
  {
    match a
    case BeginActive => BeginSwitch(s, t)
    case LookupDone(ok) => AfterLookup(s, t, p.target, ok)
    case CwdRefreshed(ok) => AfterCwdRefresh(s, t, p.target, ok)
    case FdMigrated(r) => AfterFd(s, t, p, r)
    case CwdInstalled(ok) => Leave(s.(cwd := Refreshed(s, p.staleCwd.gfid, ok)), t, Some(p.target))
  }

  /** graph_setup, glfs_init_done and glfs_subvol_done. */
  function ActGraph(s: State, t: Tid, p: Pc, a: Action): State
    requires t < |s.threads| && Can(s, p, a) && !SwitchAction(a) && !FdAction(a) && !CwdAction(a)
  {
    match a
    case GraphSetup(g, ok) => Setup(s, t, g, ok)
    case InitDone => s.(init := true).Goto(t, Idle)
    case SubvolDone => s.(graphs := s.graphs.Drop(ToDrop(p).value)).Goto(t, AfterDrop(p))
  }

  /** Opening, binding, resolving, releasing and destroying glfds. */
  function ActFd(s: State, t: Tid, p: Pc, a: Action): State
    requires t < |s.threads| && Can(s, p, a) && FdAction(a)
  {
    match a
    case OpenGlfd(b, f, gfid) =>
      s.(table := s.table.Create(f, Inode(p.held, gfid)).Store(b, f)).Goto(t, Opened(p.held, b))
    case BindGlfd => s.(table := s.table.Bind(p.glfd)).Goto(t, Holding(p.held))
    case AbortOpen => s.(table := s.table.Forget(p.glfd)).Goto(t, UsingFd(p.held, s.table.Stored(p.glfd)))
    case BeginResolve(b) => BeginResolveFd(s, t, p.held, b)
    case FdResolved(r) => AfterResolve(s, t, p.held, p.glfd, r)
    case UnrefFd =>
      s.(table := s.table.AddRef(p.fd, -1)).Goto(t, if p.UsingFd? then Holding(p.held) else Idle)
    case Destroy(b) => s.(table := s.table.Forget(b)).Goto(t, Closing(s.table.Stored(b)))
  }

  /** glfs_cwd_set and glfs_cwd_get. */
  function ActCwd(s: State, t: Tid, p: Pc, a: Action): State
    requires t < |s.threads| && Can(s, p, a) && CwdAction(a)
  {
    match a
    case BeginCwdSet(i) => BeginSetCwd(s, t, p.held, i)
    case CwdSetDone(ok) => s.(cwd := Refreshed(s, p.inode.gfid, ok)).Close(t, Holding(p.held))
    case BeginCwdGet => BeginGetCwd(s, t, p.held)
    case CwdGetDone => s.Close(t, Holding(p.held))
  }

  /** Every event of the run is possible when its turn comes. */
  predicate Legal(s: State, run: seq<Event>)
    decreases |run|
  {
    run == [] || (Enabled(s, run[0]) && Legal(Apply(s, run[0]), run[1..]))
  }

  /** The state at the end of a run. */
  function Exec(s: State, run: seq<Event>): State
    requires Legal(s, run)
    decreases |run|
  {
    if run == [] then s else Exec(Apply(s, run[0]), run[1..])
  }
}
