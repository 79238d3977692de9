/**
  A run in which everything happens: a graph comes up and becomes active, a file is opened and the cwd
  set on it, another graph replaces it, and the first is told PARENT_DOWN when its last user is done.
 */
module GraphSwitchSample {
  import opened Wrappers
  import opened GraphSwitch

  /** Some run ends in `s`. */
  ghost predicate Reached(s: State) {
    exists run :: Legal(INITIAL, run) && Exec(INITIAL, run) == s
  }

  lemma {:induction false} LegalAppend(s: State, a: seq<Event>, b: seq<Event>)
    requires Legal(s, a) && Legal(Exec(s, a), b)
    ensures Legal(s, a + b) && Exec(s, a + b) == Exec(Exec(s, a), b)
    decreases |a|
  {
    if a == [] {
      assert a + b == b;
    } else {
      assert (a + b)[1..] == a[1..] + b;
      LegalAppend(Apply(s, a[0]), a[1..], b);
    }
  }

  lemma ReachedNext(s: State, e: Event)
    requires Reached(s) && Enabled(s, e)
    ensures Reached(Apply(s, e))
  {
    var run :| Legal(INITIAL, run) && Exec(INITIAL, run) == s;
    assert [e][1..] == [];
    LegalAppend(INITIAL, run, [e]);
  }

  // ---- the states --------------------------------------------------------------------

  const A: Graph := 7
  const B: Graph := 8
  const EMPTY: Table := Table([], map[], map[])
  const OPEN: Table := Table([1], map[1 := 1], map[1 := Fd(Inode(A, 5), 1)])
  const MOVED: Table := Table([1], map[1 := 2], map[1 := Fd(Inode(A, 5), 0), 2 := Fd(Inode(B, 5), 1)])

  const RESOLVED: Table := MOVED.(fds := MOVED.fds[3 := Fd(Inode(A, 5), 1)])
  const USED: Table := MOVED.(fds := MOVED.fds[3 := Fd(Inode(A, 5), 0)])
  const CLOSED: Table :=
    Table([], map[], map[1 := Fd(Inode(A, 5), 0), 2 := Fd(Inode(B, 5), 0), 3 := Fd(Inode(A, 5), 0)])

  const WAITING: Graphs := Graphs(None, Some(A), None, map[A := 1], {}, [])
  const ACTIVE: Graphs := Graphs(Some(A), None, None, map[A := 2], {}, [])
  const REPLACING: Graphs := Graphs(Some(A), Some(B), None, map[A := 2, B := 1], {}, [])
  const REPLACED: Graphs := Graphs(Some(B), None, None, map[A := 2, B := 2], {A}, [])

  const ONE_LEFT: Graphs := REPLACED.(winds := map[A := 1, B := 2])
  const NONE_LEFT: Graphs := REPLACED.(winds := map[A := 0, B := 2], down := [A])

  function Calm(gs: Graphs, tb: Table, cwd: Option<Inode>, threads: seq<Pc>): State {
    State(gs, tb, cwd, false, true, threads)
  }

  function Busy(gs: Graphs, tb: Table, cwd: Option<Inode>, threads: seq<Pc>): State {
    State(gs, tb, cwd, true, true, threads)
  }

  // ---- the run -----------------------------------------------------------------------

  lemma Begins()
    ensures Reached(INITIAL.(threads := [Idle]))
  {
    var s := INITIAL;
    assert Exec(INITIAL, []) == INITIAL;
    var e := Event(0, Spawn);
    var s' := INITIAL.(threads := [Idle]);
    assert Apply(s, e) == s';
    ReachedNext(s, e);
  }

  lemma SetUp()
    ensures Reached(State(WAITING, EMPTY, None, false, false, [Notified]))
  {
    var s := INITIAL.(threads := [Idle]);
    Begins();
    var e := Event(0, GraphSetup(A, true));
    var s' := State(WAITING, EMPTY, None, false, false, [Notified]);
    assert Apply(s, e) == s';
    ReachedNext(s, e);
  }

  lemma Inits()
    ensures Reached(Calm(WAITING, EMPTY, None, [Idle]))
  {
    var s := State(WAITING, EMPTY, None, false, false, [Notified]);
    SetUp();
    var e := Event(0, InitDone);
    var s' := Calm(WAITING, EMPTY, None, [Idle]);
    assert Apply(s, e) == s';
    ReachedNext(s, e);
  }

  lemma LooksUp()
    ensures Reached(Busy(WAITING, EMPTY, None, [FirstLookup(A)]))
  {
    var s := Calm(WAITING, EMPTY, None, [Idle]);
    Inits();
    var e := Event(0, BeginActive);
    var s' := Busy(WAITING, EMPTY, None, [FirstLookup(A)]);
    assert Apply(s, e) == s';
    ReachedNext(s, e);
  }

  lemma IsActive()
    ensures Reached(Calm(ACTIVE, EMPTY, None, [Holding(A)]))
  {
    var s := Busy(WAITING, EMPTY, None, [FirstLookup(A)]);
    LooksUp();
    assert MigrateFrom(s, 0, A, None, 0) == Finish(s, 0, A, None);
    var e := Event(0, LookupDone(true));
    var s' := Calm(ACTIVE, EMPTY, None, [Holding(A)]);
    assert Apply(s, e) == s';
    ReachedNext(s, e);
  }

  lemma Opens()
    ensures Reached(Calm(ACTIVE, OPEN.(open := []), None, [Opened(A, 1)]))
  {
    var s := Calm(ACTIVE, EMPTY, None, [Holding(A)]);
    IsActive();
    var e := Event(0, OpenGlfd(1, 1, 5));
    var s' := Calm(ACTIVE, OPEN.(open := []), None, [Opened(A, 1)]);
    assert Apply(s, e) == s';
    ReachedNext(s, e);
  }

  lemma Binds()
    ensures Reached(Calm(ACTIVE, OPEN, None, [Holding(A)]))
  {
    var s := Calm(ACTIVE, OPEN.(open := []), None, [Opened(A, 1)]);
    Opens();
    var e := Event(0, BindGlfd);
    var s' := Calm(ACTIVE, OPEN, None, [Holding(A)]);
    assert Apply(s, e) == s';
    ReachedNext(s, e);
  }

  lemma SetsCwd()
    ensures Reached(Calm(ACTIVE, OPEN, Some(Inode(A, 9)), [Holding(A)]))
  {
    var s := Calm(ACTIVE, OPEN, None, [Holding(A)]);
    Binds();
    var e := Event(0, BeginCwdSet(Inode(A, 9)));
    var s' := Calm(ACTIVE, OPEN, Some(Inode(A, 9)), [Holding(A)]);
    assert Apply(s, e) == s';
    ReachedNext(s, e);
  }

  lemma Joins()
    ensures Reached(Calm(ACTIVE, OPEN, Some(Inode(A, 9)), [Holding(A), Idle]))
  {
    var s := Calm(ACTIVE, OPEN, Some(Inode(A, 9)), [Holding(A)]);
    SetsCwd();
    var e := Event(1, Spawn);
    var s' := Calm(ACTIVE, OPEN, Some(Inode(A, 9)), [Holding(A), Idle]);
    assert Apply(s, e) == s';
    ReachedNext(s, e);
  }

  lemma SetUpAgain()
    ensures Reached(Calm(REPLACING, OPEN, Some(Inode(A, 9)), [Holding(A), Notified]))
  {
    var s := Calm(ACTIVE, OPEN, Some(Inode(A, 9)), [Holding(A), Idle]);
    Joins();
    var e := Event(1, GraphSetup(B, true));
    var s' := Calm(REPLACING, OPEN, Some(Inode(A, 9)), [Holding(A), Notified]);
    assert Apply(s, e) == s';
    ReachedNext(s, e);
  }

  lemma InitsAgain()
    ensures Reached(Calm(REPLACING, OPEN, Some(Inode(A, 9)), [Holding(A), Idle]))
  {
    var s := Calm(REPLACING, OPEN, Some(Inode(A, 9)), [Holding(A), Notified]);
    SetUpAgain();
    var e := Event(1, InitDone);
    var s' := Calm(REPLACING, OPEN, Some(Inode(A, 9)), [Holding(A), Idle]);
    assert Apply(s, e) == s';
    ReachedNext(s, e);
  }

  lemma LooksUpAgain()
    ensures Reached(Busy(REPLACING, OPEN, Some(Inode(A, 9)), [Holding(A), FirstLookup(B)]))
  {
    var s := Calm(REPLACING, OPEN, Some(Inode(A, 9)), [Holding(A), Idle]);
    InitsAgain();
    var e := Event(1, BeginActive);
    var s' := Busy(REPLACING, OPEN, Some(Inode(A, 9)), [Holding(A), FirstLookup(B)]);
    assert Apply(s, e) == s';
    ReachedNext(s, e);
  }

  lemma RefreshesCwd()
    ensures Reached(Busy(REPLACING, OPEN, Some(Inode(A, 9)), [Holding(A), RefreshCwd(B)]))
  {
    var s := Busy(REPLACING, OPEN, Some(Inode(A, 9)), [Holding(A), FirstLookup(B)]);
    LooksUpAgain();
    var e := Event(1, LookupDone(true));
    var s' := Busy(REPLACING, OPEN, Some(Inode(A, 9)), [Holding(A), RefreshCwd(B)]);
    assert Apply(s, e) == s';
    ReachedNext(s, e);
  }

  lemma MigratesFd()
    ensures Reached(Busy(REPLACING, OPEN, Some(Inode(A, 9)), [Holding(A), MigrateFd(B, Some(Inode(B, 9)), 0)]))
  {
    var s := Busy(REPLACING, OPEN, Some(Inode(A, 9)), [Holding(A), RefreshCwd(B)]);
    RefreshesCwd();
    assert s.table.NextMigratable(0) == 0;
    var e := Event(1, CwdRefreshed(true));
    var s' := Busy(REPLACING, OPEN, Some(Inode(A, 9)), [Holding(A), MigrateFd(B, Some(Inode(B, 9)), 0)]);
    assert Apply(s, e) == s';
    ReachedNext(s, e);
  }

  lemma Switches()
    ensures Reached(Calm(REPLACED, MOVED, Some(Inode(B, 9)), [Holding(A), DropOld(A, Some(B))]))
  {
    var s := Busy(REPLACING, OPEN, Some(Inode(A, 9)), [Holding(A), MigrateFd(B, Some(Inode(B, 9)), 0)]);
    MigratesFd();
    var s1 := s.(table := MOVED);
    assert Migrated(OPEN, 1, B, Some(2)) == MOVED;
    assert s1.table.NextMigratable(1) == 1;
    assert MigrateFrom(s1, 1, B, Some(Inode(B, 9)), 1) == Finish(s1, 1, B, Some(Inode(B, 9)));
    var e := Event(1, FdMigrated(Some(2)));
    var s' := Calm(REPLACED, MOVED, Some(Inode(B, 9)), [Holding(A), DropOld(A, Some(B))]);
    assert Apply(s, e) == s';
    ReachedNext(s, e);
  }

  lemma DropsOld()
    ensures Reached(Calm(ONE_LEFT, MOVED, Some(Inode(B, 9)), [Holding(A), Holding(B)]))
  {
    var s := Calm(REPLACED, MOVED, Some(Inode(B, 9)), [Holding(A), DropOld(A, Some(B))]);
    Switches();
    var e := Event(1, SubvolDone);
    var s' := Calm(ONE_LEFT, MOVED, Some(Inode(B, 9)), [Holding(A), Holding(B)]);
    assert Apply(s, e) == s';
    ReachedNext(s, e);
  }
  lemma Resolves()
    ensures Reached(Busy(ONE_LEFT, MOVED, Some(Inode(B, 9)), [ResolveFd(A, 1), Holding(B)]))
  {
    var s := Calm(ONE_LEFT, MOVED, Some(Inode(B, 9)), [Holding(A), Holding(B)]);
    DropsOld();
    var e := Event(0, BeginResolve(1));
    var s' := Busy(ONE_LEFT, MOVED, Some(Inode(B, 9)), [ResolveFd(A, 1), Holding(B)]);
    assert Apply(s, e) == s';
    ReachedNext(s, e);
  }

  lemma UsesFd()
    ensures Reached(Calm(ONE_LEFT, RESOLVED, Some(Inode(B, 9)), [UsingFd(A, 3), Holding(B)]))
  {
    var s := Busy(ONE_LEFT, MOVED, Some(Inode(B, 9)), [ResolveFd(A, 1), Holding(B)]);
    Resolves();
    var e := Event(0, FdResolved(Some(3)));
    var s' := Calm(ONE_LEFT, RESOLVED, Some(Inode(B, 9)), [UsingFd(A, 3), Holding(B)]);
    assert Apply(s, e) == s';
    ReachedNext(s, e);
  }

  lemma ReleasesFd()
    ensures Reached(Calm(ONE_LEFT, USED, Some(Inode(B, 9)), [Holding(A), Holding(B)]))
  {
    var s := Calm(ONE_LEFT, RESOLVED, Some(Inode(B, 9)), [UsingFd(A, 3), Holding(B)]);
    UsesFd();
    assert RESOLVED.AddRef(3, -1) == USED;
    var e := Event(0, UnrefFd);
    var s' := Calm(ONE_LEFT, USED, Some(Inode(B, 9)), [Holding(A), Holding(B)]);
    assert Apply(s, e) == s';
    ReachedNext(s, e);
  }

  lemma SetsOldCwd()
    ensures Reached(Busy(ONE_LEFT, USED, Some(Inode(B, 9)), [SetCwd(A, Inode(A, 6)), Holding(B)]))
  {
    var s := Calm(ONE_LEFT, USED, Some(Inode(B, 9)), [Holding(A), Holding(B)]);
    ReleasesFd();
    var e := Event(0, BeginCwdSet(Inode(A, 6)));
    var s' := Busy(ONE_LEFT, USED, Some(Inode(B, 9)), [SetCwd(A, Inode(A, 6)), Holding(B)]);
    assert Apply(s, e) == s';
    ReachedNext(s, e);
  }

  lemma CwdIsSet()
    ensures Reached(Calm(ONE_LEFT, USED, Some(Inode(B, 6)), [Holding(A), Holding(B)]))
  {
    var s := Busy(ONE_LEFT, USED, Some(Inode(B, 9)), [SetCwd(A, Inode(A, 6)), Holding(B)]);
    SetsOldCwd();
    var e := Event(0, CwdSetDone(true));
    var s' := Calm(ONE_LEFT, USED, Some(Inode(B, 6)), [Holding(A), Holding(B)]);
    assert Apply(s, e) == s';
    ReachedNext(s, e);
  }

  lemma LastDrop()
    ensures Reached(Calm(NONE_LEFT, USED, Some(Inode(B, 6)), [Idle, Holding(B)]))
  {
    var s := Calm(ONE_LEFT, USED, Some(Inode(B, 6)), [Holding(A), Holding(B)]);
    CwdIsSet();
    var e := Event(0, SubvolDone);
    var s' := Calm(NONE_LEFT, USED, Some(Inode(B, 6)), [Idle, Holding(B)]);
    assert Apply(s, e) == s';
    ReachedNext(s, e);
  }

  lemma Destroys()
    ensures Reached(Calm(NONE_LEFT, USED.(open := [], slots := map[]), Some(Inode(B, 6)), [Closing(2), Holding(B)]))
  {
    var s := Calm(NONE_LEFT, USED, Some(Inode(B, 6)), [Idle, Holding(B)]);
    LastDrop();
    assert USED.Forget(1) == USED.(open := [], slots := map[]);
    var e := Event(0, Destroy(1));
    var s' := Calm(NONE_LEFT, USED.(open := [], slots := map[]), Some(Inode(B, 6)), [Closing(2), Holding(B)]);
    assert Apply(s, e) == s';
    ReachedNext(s, e);
  }

  /** At the end the second graph is active with its reference and one call's, the cwd is on it, the first
      graph has been told PARENT_DOWN, and no fd has a reference left. */
  lemma EverythingHappens()
    ensures Reached(Calm(NONE_LEFT, CLOSED, Some(Inode(B, 6)), [Idle, Holding(B)]))
  {
    var s := Calm(NONE_LEFT, USED.(open := [], slots := map[]), Some(Inode(B, 6)), [Closing(2), Holding(B)]);
    Destroys();
    assert s.table.AddRef(2, -1) == CLOSED;
    var e := Event(0, UnrefFd);
    var s' := Calm(NONE_LEFT, CLOSED, Some(Inode(B, 6)), [Idle, Holding(B)]);
    assert Apply(s, e) == s';
    ReachedNext(s, e);
  }
}
