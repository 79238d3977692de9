/**
  Reference counts of the fds: each fd_t is referenced once by every glfd that stores it
  and once by every call that uses it.
 */
module GraphSwitchFds {
  import opened Wrappers
  import opened GraphSwitch
  import opened GraphSwitchSafety

  function StoredIn(tb: Table, f: FdId): set<Glfd> {
    set b | b in tb.slots && tb.slots[b] == f
  }

  /** The references of `f` that the slots do not account for. */
  function Spare(tb: Table, f: FdId): int {
    tb.Node(f).refs - |StoredIn(tb, f)|
  }

  function Uses(p: Pc, f: FdId): nat {
    One((p.UsingFd? || p.Closing?) && p.fd == f)
  }

  function Users(ts: seq<Pc>, f: FdId): nat {
    if ts == [] then 0 else Uses(ts[0], f) + Users(ts[1..], f)
  }

  function FdExcess(s: State, f: FdId): int {
    Spare(s.table, f) - Users(s.threads, f)
  }

  predicate TableInv(tb: Table) {
    && (forall i, j :: 0 <= i < j < |tb.open| ==> tb.open[i] != tb.open[j])
    && (forall b :: b in tb.open ==> b in tb.slots)
    && (forall b :: b in tb.slots ==> tb.slots[b] in tb.fds)
  }

  /** Glfd `b` stores exactly the fd it stored in `tb0`. */
  predicate SameSlot(tb0: Table, tb: Table, b: Glfd) {
    tb.Stored(b) == tb0.Stored(b) && tb.At(b) == tb0.At(b)
  }

  lemma {:induction false} UsersUpdate(ts: seq<Pc>, t: Tid, p: Pc, f: FdId)
    requires t < |ts|
    ensures Users(ts[t := p], f) == Users(ts, f) - Uses(ts[t], f) + Uses(p, f)
  {
    if t == 0 {
      assert ts[t := p][1..] == ts[1..];
    } else {
      assert ts[t := p][1..] == ts[1..][t - 1 := p];
      UsersUpdate(ts[1..], t - 1, p, f);
    }
  }

  lemma {:induction false} UsersAppend(ts: seq<Pc>, p: Pc, f: FdId)
    ensures Users(ts + [p], f) == Users(ts, f) + Uses(p, f)
  {
    if ts != [] {
      assert (ts + [p])[1..] == ts[1..] + [p];
      UsersAppend(ts[1..], p, f);
    }
  }

  lemma {:induction false} UsersAtLeast(ts: seq<Pc>, t: Tid, f: FdId)
    requires t < |ts|
    ensures Users(ts, f) >= Uses(ts[t], f)
  {
    if t > 0 {
      UsersAtLeast(ts[1..], t - 1, f);
    }
  }

  // ---- the table operations ----------------------------------------------------------

  lemma AddRefSpare(tb: Table, h: FdId, d: int, f: FdId)
    ensures Spare(tb.AddRef(h, d), f) == Spare(tb, f) + (if h == f then d else 0)
  {
    assert StoredIn(tb.AddRef(h, d), f) == StoredIn(tb, f);
  }

  lemma CreateSpare(tb: Table, h: FdId, i: Inode, f: FdId)
    requires TableInv(tb) && h !in tb.fds
    ensures Spare(tb.Create(h, i), f) == Spare(tb, f) + One(h == f)
  {
    assert StoredIn(tb.Create(h, i), f) == StoredIn(tb, f);
  }

  lemma StoreSpare(tb: Table, b: Glfd, h: FdId, f: FdId)
    ensures Spare(tb.Store(b, h), f) == Spare(tb, f) - One(h == f) + One(b in tb.slots && tb.slots[b] == f)
  {
    var before := StoredIn(tb, f) - {b};
    assert StoredIn(tb.Store(b, h), f) == if h == f then before + {b} else before;
    assert StoredIn(tb, f) == if b in tb.slots && tb.slots[b] == f then before + {b} else before;
  }

  lemma ForgetSpare(tb: Table, b: Glfd, f: FdId)
    requires b in tb.slots
    ensures Spare(tb.Forget(b), f) == Spare(tb, f) + One(tb.slots[b] == f)
  {
    var after := StoredIn(tb.Forget(b), f);
    assert StoredIn(tb, f) == if tb.slots[b] == f then after + {b} else after;
  }

  lemma ReplaceSpare(tb: Table, b: Glfd, h: FdId, f: FdId)
    requires b in tb.slots
    ensures Spare(tb.Replace(b, h), f) == Spare(tb, f) - One(h == f)
  {
    AddRefSpare(tb, tb.Stored(b), -1, f);
    StoreSpare(tb.AddRef(tb.Stored(b), -1), b, h, f);
  }

  lemma MigratedSpare(tb: Table, b: Glfd, n: Graph, r: Option<FdId>, f: FdId)
    requires TableInv(tb) && b in tb.slots && FdResult(tb, b, n, r)
    ensures Spare(Migrated(tb, b, n, r), f) == Spare(tb, f)
  {
    if r.Some? && r.value != tb.Stored(b) {
      var i := Inode(n, tb.At(b).gfid);
      CreateSpare(tb, r.value, i, f);
      ReplaceSpare(tb.Create(r.value, i), b, r.value, f);
    }
  }

  lemma ResolvedSpare(s: State, g: Graph, b: Glfd, h: FdId, f: FdId)
    requires TableInv(s.table) && b in s.table.slots && h !in s.table.fds
    ensures Spare(Resolved(s, g, b, h), f) == Spare(s.table, f) + One(h == f)
  {
    var tb := s.table;
    var created := tb.Create(h, Inode(g, tb.At(b).gfid));
    CreateSpare(tb, h, Inode(g, tb.At(b).gfid), f);
    ReplaceSpare(created, b, h, f);
    AddRefSpare(created.Replace(b, h), h, 1, f);
  }

  // ---- every step keeps the balance of fd references ---------------------------------

  lemma MoveFdExcess(s: State, s': State, t: Tid, f: FdId)
    requires Moves(s, s', t)
    requires Spare(s'.table, f) - Uses(s'.threads[t], f) == Spare(s.table, f) - Uses(s.threads[t], f)
    ensures FdExcess(s', f) == FdExcess(s, f)
  {
    UsersUpdate(s.threads, t, s'.threads[t], f);
  }

  /** What the end of a switch step does, whichever way it goes. */
  predicate SwitchOutcome(s: State, s': State, t: Tid, n: Graph, c: Option<Inode>) {
    && Moves(s, s', t) && s'.table == s.table && s'.init == s.init
    && var p := s'.threads[t];
       || (p.MigrateFd? && p.target == n && p.newCwd == c && p.index < |s.table.open|
           && s'.migrating && s'.graphs == s.graphs && s'.cwd == s.cwd)
       || (c.Some? && p == InstallCwd(n, c.value) && s.graphs.next != Some(c.value.graph)
           && s'.migrating && s'.graphs == s.graphs.Exchange() && s'.cwd == s.cwd)
       || (p == LeavePc(s.graphs.active, Some(n)) && (c.Some? ==> s.graphs.next == Some(c.value.graph))
           && !s'.migrating && s'.graphs == s.graphs.Exchange().Leave(Some(n))
           && s'.cwd == if c.Some? then c else s.cwd)
  }

  lemma MigrateFromOutcome(s: State, t: Tid, n: Graph, c: Option<Inode>, i: nat)
    requires t < |s.threads| && i <= |s.table.open|
    ensures SwitchOutcome(s, MigrateFrom(s, t, n, c, i), t, n, c)
  {
    var j := s.table.NextMigratable(i);
  }

  /** A switch step replaces at most the fd of one open glfd, and its thread uses no fd. */
  lemma SwitchTable(s: State, t: Tid, a: Action, f: FdId)
    requires t < |s.threads| && Can(s, s.threads[t], a) && SwitchAction(a)
    ensures var p := s.threads[t]; var s' := ActSwitch(s, t, p, a);
      && Moves(s, s', t) && Uses(p, f) == 0 && Uses(s'.threads[t], f) == 0
      && s'.table == if a.FdMigrated? then Migrated(s.table, s.table.open[p.index], p.target, a.result) else s.table
  {
    var p := s.threads[t];
    match a
    case BeginActive =>
    case LookupDone(ok) => MigrateFromOutcome(s, t, p.target, None, 0);
    case CwdRefreshed(ok) => MigrateFromOutcome(s, t, p.target, Some(Inode(p.target, s.cwd.value.gfid)), 0);
    case FdMigrated(r) =>
      var s1 := s.(table := Migrated(s.table, s.table.open[p.index], p.target, r));
      MigrateFromOutcome(s1, t, p.target, p.newCwd, p.index + 1);
    case CwdInstalled(ok) =>
  }

  lemma FdActionExcess(s: State, t: Tid, a: Action, f: FdId)
    requires t < |s.threads| && Can(s, s.threads[t], a) && FdAction(a)
    requires TableInv(s.table) && PcOk(s, s.threads[t])
    ensures FdExcess(ActFd(s, t, s.threads[t], a), f) == FdExcess(s, f)
  {
    var p := s.threads[t];
    var s' := ActFd(s, t, p, a);
    var tb := s.table;
    match a {
      case OpenGlfd(b, h, gfid) =>
        CreateSpare(tb, h, Inode(p.held, gfid), f);
        StoreSpare(tb.Create(h, Inode(p.held, gfid)), b, h, f);
      case BindGlfd => assert StoredIn(s'.table, f) == StoredIn(tb, f);
      case AbortOpen => ForgetSpare(tb, p.glfd, f);
      case BeginResolve(b) => AddRefSpare(tb, tb.Stored(b), 1, f);
      case FdResolved(r) => if r.Some? { ResolvedSpare(s, p.held, p.glfd, r.value, f); }
      case UnrefFd => AddRefSpare(tb, p.fd, -1, f);
      case Destroy(b) => ForgetSpare(tb, b, f);
    }
    MoveFdExcess(s, s', t, f);
  }

  /** No step of any thread creates or loses a reference to an fd. */
  lemma StepKeepsFdExcess(s: State, e: Event, f: FdId)
    requires Enabled(s, e) && TableInv(s.table) && (e.tid < |s.threads| ==> PcOk(s, s.threads[e.tid]))
    ensures FdExcess(Apply(s, e), f) == FdExcess(s, f)
  {
    var t := e.tid;
    if e.action.Spawn? {
      UsersAppend(s.threads, Idle, f);
    } else if FdAction(e.action) {
      FdActionExcess(s, t, e.action, f);
    } else {
      var p := s.threads[t];
      if SwitchAction(e.action) {
        SwitchTable(s, t, e.action, f);
        if e.action.FdMigrated? {
          MigratedSpare(s.table, s.table.open[p.index], p.target, e.action.result, f);
        }
      } else if CwdAction(e.action) {
        CwdFrame(s, t, e.action, 0);
      }
      MoveFdExcess(s, Apply(s, e), t, f);
    }
  }

  // ---- the table stays well formed ---------------------------------------------------

  lemma {:induction false} WithoutMembers(q: seq<Glfd>, b: Glfd)
    requires forall i, j :: 0 <= i < j < |q| ==> q[i] != q[j]
    ensures forall i, j :: 0 <= i < j < |Without(q, b)| ==> Without(q, b)[i] != Without(q, b)[j]
    ensures forall c :: c in Without(q, b) <==> c in q && c != b
  {
    if q != [] {
      WithoutMembers(q[1..], b);
      assert q == [q[0]] + q[1..];
      assert q[0] !in q[1..];
    }
  }

  /** `to` has every slot and fd of `from`, and the same open list. */
  predicate Extends(from: Table, to: Table) {
    to.open == from.open && from.slots.Keys <= to.slots.Keys && from.fds.Keys <= to.fds.Keys
  }

  lemma MigratedInv(tb: Table, b: Glfd, n: Graph, r: Option<FdId>)
    requires TableInv(tb) && b in tb.slots
    ensures TableInv(Migrated(tb, b, n, r)) && Extends(tb, Migrated(tb, b, n, r))
  {
  }

  lemma ResolvedInv(s: State, g: Graph, b: Glfd, f: FdId)
    requires TableInv(s.table) && b in s.table.slots
    ensures TableInv(Resolved(s, g, b, f)) && Extends(s.table, Resolved(s, g, b, f)) && f in Resolved(s, g, b, f).fds
  {
  }

  lemma ForgetInv(tb: Table, b: Glfd)
    requires TableInv(tb)
    ensures TableInv(tb.Forget(b))
  {
    WithoutMembers(tb.open, b);
  }

  lemma FdActionTable(s: State, t: Tid, a: Action)
    requires t < |s.threads| && Can(s, s.threads[t], a) && FdAction(a)
    requires TableInv(s.table) && PcOk(s, s.threads[t])
    ensures var s' := ActFd(s, t, s.threads[t], a);
      TableInv(s'.table) && s.table.fds.Keys <= s'.table.fds.Keys && PcOk(s', s'.threads[t])
  {
    var p := s.threads[t];
    match a
    case OpenGlfd(b, h, gfid) =>
    case BindGlfd =>
    case AbortOpen => ForgetInv(s.table, p.glfd);
    case BeginResolve(b) =>
    case FdResolved(r) => if r.Some? { ResolvedInv(s, p.held, p.glfd, r.value); }
    case UnrefFd =>
    case Destroy(b) => ForgetInv(s.table, b);
  }
}
