/**
  A switch is all or nothing, whatever other threads do between its windows, and the references
  to fds are balanced.
 */
module GraphSwitchAtomic {
  import opened Wrappers
  import opened GraphSwitch
  import opened GraphSwitchSafety
  import opened GraphSwitchFds
  import opened GraphSwitchInv
  import opened GraphSwitchRuns

  /** Each open glfd stores exactly the fd it stored in `s0`, or one on graph `n` for the same file. */
  predicate FdsMoved(s0: State, s: State, n: Graph) {
    && s.table.open == s0.table.open
    && (forall b :: b in s0.table.open ==> SameOrMoved(s0, s, n, b))
  }

  predicate SameOrMoved(s0: State, s: State, n: Graph, b: Glfd) {
    SameSlot(s0.table, s.table, b) || s.table.At(b) == Inode(n, s0.table.At(b).gfid)
  }

  /** The migration loop has dealt with `b`: it is on `n`, it has no gfid yet, or its
      migration failed (`b` is in `failed`). */
  predicate Handled(s: State, n: Graph, b: Glfd, failed: set<Glfd>) {
    s.table.At(b).graph == n || s.table.At(b).gfid == NULL_GFID || b in failed
  }

  predicate HandledUpTo(s: State, n: Graph, i: nat, failed: set<Glfd>) {
    i <= |s.table.open| && forall k :: 0 <= k < i ==> Handled(s, n, s.table.open[k], failed)
  }

  /** How far the loop is once its thread stands at `p`. */
  predicate Progress(s: State, n: Graph, p: Pc, failed: set<Glfd>) {
    if p.FirstLookup? || p.RefreshCwd? then true
    else if p.MigrateFd? then HandledUpTo(s, n, p.index, failed)
    else HandledUpTo(s, n, |s.table.open|, failed)
  }

  predicate PreExchange(p: Pc) {
    p.FirstLookup? || p.RefreshCwd? || p.MigrateFd?
  }

  /** Where a switch to `n` that thread `t` began in `s0` has got to. */
  predicate Since(s0: State, s: State, t: Tid, n: Graph) {
    && t < |s.threads|
    && match s.threads[t]
       case FirstLookup(m) => m == n && Frozen(s0, s)
       case RefreshCwd(m) => m == n && Frozen(s0, s)
       case MigrateFd(m, _, _) => m == n && Untouched(s0, s) && FdsMoved(s0, s, n)
       case InstallCwd(m, c) =>
         && m == n && s0.cwd.Some? && c == Inode(n, s0.cwd.value.gfid)
         && s.graphs.active != Some(n) && s.graphs.retiring == s0.graphs.active
         && s.graphs.switched == s0.graphs.switched && s.cwd == s0.cwd && FdsMoved(s0, s, n)
       case _ => false
  }

  /** The first lookup or the cwd refresh of thread `t` fails. */
  predicate Fails(e: Event, t: Tid) {
    e.tid == t && (e.action == LookupDone(false) || e.action == CwdRefreshed(false))
  }

  predicate AnyFails(run: seq<Event>, t: Tid) {
    exists i :: 0 <= i < |run| && Fails(run[i], t)
  }

  /** The glfds whose migration fails in one step of thread `t`, and in a whole run. */
  function FailedFd(s: State, e: Event, t: Tid): set<Glfd> {
    if e.tid == t && t < |s.threads| && s.threads[t].MigrateFd? && s.threads[t].index < |s.table.open|
       && e.action == FdMigrated(None)
    then {s.table.open[s.threads[t].index]} else {}
  }

  function FailedFds(s: State, run: seq<Event>, t: Tid): set<Glfd>
    requires Legal(s, run)
    decreases |run|
  {
    if run == [] then {} else FailedFd(s, run[0], t) + FailedFds(Apply(s, run[0]), run[1..], t)
  }

  predicate Untouched(s0: State, s: State) {
    && s.graphs.active == s0.graphs.active && s.graphs.retiring == s0.graphs.retiring
    && s.graphs.switched == s0.graphs.switched && s.cwd == s0.cwd
  }

  function Retired(gs: Graphs): set<Graph> {
    if gs.active.Some? then {gs.active.value} else {}
  }

  /** The switch failed, and the glfs object is as it was. */
  predicate Aborted(s0: State, s: State, t: Tid) {
    t < |s.threads| && s.threads[t] == Idle && Frozen(s0, s)
  }

  /** The switch returned `n`, the old graph is marked and waits to be dropped, every open fd
      is on `n` or as before, and the cwd went along when `n` became active. */
  predicate Switched(s0: State, s: State, t: Tid, n: Graph) {
    && t < |s.threads| && s.threads[t] == LeavePc(s0.graphs.active, Some(n))
    && s.graphs.active.Some? && s.graphs.retiring.None?
    && s.graphs.switched == s0.graphs.switched + Retired(s0.graphs)
    && FdsMoved(s0, s, n)
    && (s0.cwd.None? ==> s.cwd.None?)
    && (s0.cwd.Some? && s.graphs.active == Some(n) ==> s.cwd == Some(Inode(n, s0.cwd.value.gfid)))
    && (s0.cwd.Some? && s.graphs.active != Some(n) ==>
          s.cwd == s0.cwd || s.cwd == Some(Inode(s.graphs.active.value, s0.cwd.value.gfid)))
  }

  // ---- single steps ------------------------------------------------------------------

  lemma FrozenMoves(s0: State, s: State, s': State, n: Graph)
    requires FdsMoved(s0, s, n) && Frozen(s, s')
    ensures FdsMoved(s0, s', n)
  {
    forall b | b in s0.table.open ensures SameOrMoved(s0, s', n, b) {
      assert SameOrMoved(s0, s, n, b);
    }
  }

  lemma BystanderKeepsSince(s0: State, s: State, t: Tid, n: Graph, e: Event)
    requires Inv(s) && Since(s0, s, t, n) && Enabled(s, e) && e.tid != t
    ensures Since(s0, Apply(s, e), t, n) && Apply(s, e).threads[t] == s.threads[t]
  {
    var s' := Apply(s, e);
    OtherKeepsPc(s, t, e);
    if s.threads[t].MigrateFd? || s.threads[t].InstallCwd? {
      FrozenMoves(s0, s, s', n);
    }
  }

  lemma MigratedMoves(s0: State, s: State, n: Graph, i: nat, r: Option<FdId>)
    requires TableInv(s.table) && FdsMoved(s0, s, n) && i < |s.table.open|
    requires FdResult(s.table, s.table.open[i], n, r)
    ensures FdsMoved(s0, s.(table := Migrated(s.table, s.table.open[i], n, r)), n)
  {
    var b := s.table.open[i];
    var s1 := s.(table := Migrated(s.table, b, n, r));
    forall c | c in s0.table.open ensures SameOrMoved(s0, s1, n, c) {
      assert SameOrMoved(s0, s, n, c);
      assert SameOrMoved(s0, s, n, b);
      if r.Some? && r.value != s.table.Stored(b) {
        assert s.table.Stored(c) in s.table.fds;
        if c != b {
          assert s1.table.Stored(c) == s.table.Stored(c) && s1.table.At(c) == s.table.At(c);
        } else {
          assert s1.table.At(b) == Inode(n, s.table.At(b).gfid);
        }
      }
    }
  }

  lemma OutcomeSince(s0: State, s: State, s': State, t: Tid, n: Graph, c: Option<Inode>)
    requires SwitchOutcome(s, s', t, n, c) && BeforeExchange(s, n) && CwdCopy(s, n, c)
    requires Untouched(s0, s) && FdsMoved(s0, s, n)
    ensures (PreExchange(s'.threads[t]) && Since(s0, s', t, n))
      || (s'.graphs.active == s.graphs.next && !PreExchange(s'.threads[t])
          && (Since(s0, s', t, n) || Switched(s0, s', t, n)))
  {
    assert FdsMoved(s0, s', n);
  }

  lemma FrozenIsMoved(s0: State, s: State, n: Graph)
    requires Frozen(s0, s)
    ensures Untouched(s0, s) && FdsMoved(s0, s, n)
  {
    forall b | b in s0.table.open ensures SameOrMoved(s0, s, n, b) {
    }
  }

  lemma OwnerStep(s0: State, s: State, t: Tid, n: Graph, e: Event)
    requires Inv(s) && Since(s0, s, t, n) && Enabled(s, e) && e.tid == t && PreExchange(s.threads[t])
    ensures var s' := Apply(s, e);
      if Fails(e, t) then Aborted(s0, s', t)
      else
        || (Since(s0, s', t, n) && PreExchange(s'.threads[t]))
        || (s'.graphs.active == s.graphs.next && t < |s'.threads| && !PreExchange(s'.threads[t])
            && (Since(s0, s', t, n) || Switched(s0, s', t, n)))
  {
    var s' := Apply(s, e);
    var p := s.threads[t];
    assert PcOk(s, p);
    match e.action
    case LookupDone(ok) =>
      FrozenIsMoved(s0, s, n);
      if ok && s.cwd.None? {
        MigrateFromOutcome(s, t, n, None, 0);
        OutcomeSince(s0, s, s', t, n, None);
      }
    case CwdRefreshed(ok) =>
      FrozenIsMoved(s0, s, n);
      if ok {
        var c := Some(Inode(n, s.cwd.value.gfid));
        MigrateFromOutcome(s, t, n, c, 0);
        OutcomeSince(s0, s, s', t, n, c);
      }
    case FdMigrated(r) =>
      var s1 := s.(table := Migrated(s.table, s.table.open[p.index], n, r));
      MigratedMoves(s0, s, n, p.index, r);
      MigrateFromOutcome(s1, t, n, p.newCwd, p.index + 1);
      OutcomeSince(s0, s1, s', t, n, p.newCwd);
  }

  lemma OwnerInstall(s0: State, s: State, t: Tid, n: Graph, e: Event)
    requires Inv(s) && Since(s0, s, t, n) && Enabled(s, e) && e.tid == t && s.threads[t].InstallCwd?
    ensures var s' := Apply(s, e); Switched(s0, s', t, n) && s'.graphs.active == s.graphs.active
  {
    assert PcOk(s, s.threads[t]);
    assert Apply(s, e).table == s.table;
    assert FdsMoved(s0, Apply(s, e), n);
  }

  // ---- progress of the migration loop ------------------------------------------------

  lemma {:induction false} SkippedHaveNoGfid(tb: Table, i: nat)
    requires i <= |tb.open|
    ensures forall k :: i <= k < tb.NextMigratable(i) ==> tb.At(tb.open[k]).gfid == NULL_GFID
    decreases |tb.open| - i
  {
    if i < |tb.open| && tb.At(tb.open[i]).gfid == NULL_GFID {
      SkippedHaveNoGfid(tb, i + 1);
    }
  }

  lemma MigrateFromProgress(s: State, t: Tid, n: Graph, c: Option<Inode>, i: nat, failed: set<Glfd>)
    requires t < |s.threads| && HandledUpTo(s, n, i, failed)
    ensures var s' := MigrateFrom(s, t, n, c, i); |s'.threads| == |s.threads| && Progress(s', n, s'.threads[t], failed)
  {
    SkippedHaveNoGfid(s.table, i);
    MigrateFromOutcome(s, t, n, c, i);
    var j := s.table.NextMigratable(i);
    assert HandledUpTo(s, n, j, failed);
  }

  lemma MigratedHandled(s: State, n: Graph, i: nat, r: Option<FdId>, failed: set<Glfd>)
    requires TableInv(s.table) && HandledUpTo(s, n, i, failed) && i < |s.table.open|
    requires FdResult(s.table, s.table.open[i], n, r)
    ensures var s1 := s.(table := Migrated(s.table, s.table.open[i], n, r));
      HandledUpTo(s1, n, i + 1, failed + if r.None? then {s.table.open[i]} else {})
  {
    var tb := s.table;
    var s1 := s.(table := Migrated(tb, tb.open[i], n, r));
    forall k | 0 <= k < i ensures s1.table.At(tb.open[k]) == tb.At(tb.open[k]) {
      assert Handled(s, n, tb.open[k], failed) && tb.slots[tb.open[k]] in tb.fds;
    }
  }

  lemma FdProgress(s: State, t: Tid, n: Graph, p: Pc, r: Option<FdId>, failed: set<Glfd>)
    requires TableInv(s.table) && t < |s.threads| && p.MigrateFd? && p.target == n && p.index < |s.table.open|
    requires FdResult(s.table, s.table.open[p.index], n, r) && HandledUpTo(s, n, p.index, failed)
    ensures var s' := AfterFd(s, t, p, r);
      |s'.threads| == |s.threads|
      && Progress(s', n, s'.threads[t], failed + if r.None? then {s.table.open[p.index]} else {})
  {
    var s1 := s.(table := Migrated(s.table, s.table.open[p.index], n, r));
    MigratedHandled(s, n, p.index, r, failed);
    MigrateFromProgress(s1, t, n, p.newCwd, p.index + 1, failed + if r.None? then {s.table.open[p.index]} else {});
  }

  lemma OwnerProgress(s: State, t: Tid, n: Graph, e: Event, failed: set<Glfd>)
    requires Inv(s) && t < |s.threads| && InSwitch(s.threads[t]) && s.threads[t].target == n
    requires Enabled(s, e) && e.tid == t && !Fails(e, t) && Progress(s, n, s.threads[t], failed)
    ensures var s' := Apply(s, e);
      |s'.threads| == |s.threads| && Progress(s', n, s'.threads[t], failed + FailedFd(s, e, t))
  {
    var p := s.threads[t];
    assert PcOk(s, p);
    match e.action
    case LookupDone(_) => if s.cwd.None? { MigrateFromProgress(s, t, n, None, 0, failed); }
    case CwdRefreshed(_) => MigrateFromProgress(s, t, n, Some(Inode(n, s.cwd.value.gfid)), 0, failed);
    case FdMigrated(r) => FdProgress(s, t, n, p, r, failed);
    case CwdInstalled(_) =>
  }

  // ---- whole switches ----------------------------------------------------------------

  /** The run ends with the step that takes thread `t` out of its switch. */
  predicate UntilReturn(s: State, run: seq<Event>, t: Tid)
    requires Legal(s, run)
    decreases |run|
  {
    && t < |s.threads|
    && if run == [] then !InSwitch(s.threads[t])
       else InSwitch(s.threads[t]) && UntilReturn(Apply(s, run[0]), run[1..], t)
  }

  /** The graph in the next slot when thread `t` exchanges the slots. */
  function NextAtExchange(s: State, run: seq<Event>, t: Tid): Option<Graph>
    requires Legal(s, run) && UntilReturn(s, run, t)
    decreases |run|
  {
    if run == [] then None
    else
      var s' := Apply(s, run[0]);
      if PreExchange(s.threads[t]) && !PreExchange(s'.threads[t]) then s.graphs.next
      else NextAtExchange(s', run[1..], t)
  }

  /** How the switch of thread `t` to `n`, now in state `s`, ends after `run`. */
  predicate EndsWell(s0: State, s: State, t: Tid, n: Graph, run: seq<Event>, failed: set<Glfd>)
    requires Legal(s, run) && UntilReturn(s, run, t)
  {
    var z := Exec(s, run);
    if AnyFails(run, t) then Aborted(s0, z, t)
    else
      && Switched(s0, z, t, n)
      && z.graphs.active == (if PreExchange(s.threads[t]) then NextAtExchange(s, run, t) else s.graphs.active)
      && HandledUpTo(z, n, |z.table.open|, failed + FailedFds(s, run, t))
  }

  lemma AnyFailsFirst(run: seq<Event>, t: Tid)
    requires run != []
    ensures AnyFails(run, t) <==> Fails(run[0], t) || AnyFails(run[1..], t)
  {
    if AnyFails(run[1..], t) {
      var i :| 0 <= i < |run[1..]| && Fails(run[1..][i], t);
      assert Fails(run[i + 1], t);
    }
    if AnyFails(run, t) && !Fails(run[0], t) {
      var i :| 0 <= i < |run| && Fails(run[i], t);
      assert Fails(run[1..][i - 1], t);
    }
  }

  lemma BystanderEnds(s0: State, s: State, t: Tid, n: Graph, run: seq<Event>, failed: set<Glfd>)
    requires Inv(s) && Since(s0, s, t, n) && Progress(s, n, s.threads[t], failed)
    requires Legal(s, run) && UntilReturn(s, run, t) && run != [] && run[0].tid != t
    ensures var s' := Apply(s, run[0]);
      && Inv(s') && Since(s0, s', t, n) && Progress(s', n, s'.threads[t], failed)
      && (EndsWell(s0, s', t, n, run[1..], failed) ==> EndsWell(s0, s, t, n, run, failed))
  {
    StepKeepsInv(s, run[0]);
    BystanderKeepsSince(s0, s, t, n, run[0]);
    OthersFrozen(s, run[0]);
    AnyFailsFirst(run, t);
  }

  lemma OwnerLast(s0: State, s: State, t: Tid, n: Graph, e: Event, failed: set<Glfd>)
    requires Inv(s) && Since(s0, s, t, n) && Progress(s, n, s.threads[t], failed)
    requires Legal(s, [e]) && UntilReturn(s, [e], t) && e.tid == t
    ensures EndsWell(s0, s, t, n, [e], failed)
  {
    var s' := Apply(s, e);
    AnyFailsFirst([e], t);
    assert [e][1..] == [] && Exec(s, [e]) == s';
    assert FailedFds(s, [e], t) == FailedFd(s, e, t);
    if PreExchange(s.threads[t]) { OwnerStep(s0, s, t, n, e); } else { OwnerInstall(s0, s, t, n, e); }
    if !Fails(e, t) { OwnerProgress(s, t, n, e, failed); }
  }

  lemma OwnerContinues(s0: State, s: State, t: Tid, n: Graph, run: seq<Event>, failed: set<Glfd>)
    requires Inv(s) && Since(s0, s, t, n) && Progress(s, n, s.threads[t], failed)
    requires Legal(s, run) && UntilReturn(s, run, t) && |run| > 1 && run[0].tid == t
    ensures var s' := Apply(s, run[0]); var failed' := failed + FailedFd(s, run[0], t);
      && Inv(s') && Since(s0, s', t, n) && Progress(s', n, s'.threads[t], failed')
      && (EndsWell(s0, s', t, n, run[1..], failed') ==> EndsWell(s0, s, t, n, run, failed))
  {
    var e := run[0];
    var s' := Apply(s, e);
    StepKeepsInv(s, e);
    AnyFailsFirst(run, t);
    assert InSwitch(s'.threads[t]);
    if PreExchange(s.threads[t]) { OwnerStep(s0, s, t, n, e); } else { OwnerInstall(s0, s, t, n, e); }
    OwnerProgress(s, t, n, e, failed);
    assert failed + FailedFd(s, e, t) + FailedFds(s', run[1..], t) == failed + FailedFds(s, run, t);
  }

  lemma {:induction false} SwitchEnds(s0: State, s: State, t: Tid, n: Graph, run: seq<Event>, failed: set<Glfd>)
    requires Inv(s) && Since(s0, s, t, n) && Progress(s, n, s.threads[t], failed)
    requires Legal(s, run) && UntilReturn(s, run, t)
    ensures EndsWell(s0, s, t, n, run, failed)
    decreases |run|
  {
    var s' := Apply(s, run[0]);
    if run[0].tid != t {
      BystanderEnds(s0, s, t, n, run, failed);
      SwitchEnds(s0, s', t, n, run[1..], failed);
    } else if |run| == 1 {
      assert run == [run[0]];
      OwnerLast(s0, s, t, n, run[0], failed);
    } else {
      OwnerContinues(s0, s, t, n, run, failed);
      SwitchEnds(s0, s', t, n, run[1..], failed + FailedFd(s, run[0], t));
    }
  }

  // ---- fds whose migration fails -----------------------------------------------------

  /** The position of the loop over `count` open glfds when its thread is at `p`. */
  function Position(p: Pc, count: nat): nat {
    match p
    case FirstLookup(_) => 0
    case RefreshCwd(_) => 0
    case MigrateFd(_, _, i) => i
    case _ => count
  }

  /** The glfds from position `i` on are as in `tb0`, and so are those in `failed`, which come before. */
  predicate Spared(tb0: Table, tb: Table, i: nat, failed: set<Glfd>) {
    && tb.open == tb0.open && i <= |tb.open|
    && (forall k :: i <= k < |tb.open| ==> SameSlot(tb0, tb, tb.open[k]))
    && (forall b :: b in failed ==> b in tb.open[..i] && SameSlot(tb0, tb, b))
  }

  lemma MigratedOthers(tb: Table, b: Glfd, n: Graph, r: Option<FdId>, c: Glfd)
    requires TableInv(tb) && b in tb.open && c in tb.slots && c != b && FdResult(tb, b, n, r)
    ensures SameSlot(tb, Migrated(tb, b, n, r), c)
  {
    assert tb.slots[c] in tb.fds && tb.slots[b] in tb.fds;
  }

  lemma MigratedSpares(tb0: Table, tb: Table, n: Graph, i: nat, r: Option<FdId>, failed: set<Glfd>)
    requires TableInv(tb) && i < |tb.open| && FdResult(tb, tb.open[i], n, r) && Spared(tb0, tb, i, failed)
    ensures Spared(tb0, Migrated(tb, tb.open[i], n, r), i + 1, failed + if r.None? then {tb.open[i]} else {})
  {
    var b := tb.open[i];
    assert tb.open[..i + 1] == tb.open[..i] + [b];
    forall k | i < k < |tb.open| ensures SameSlot(tb0, Migrated(tb, b, n, r), tb.open[k]) {
      MigratedOthers(tb, b, n, r, tb.open[k]);
    }
    forall c | c in failed ensures SameSlot(tb0, Migrated(tb, b, n, r), c) {
      assert c in tb.open[..i];
      MigratedOthers(tb, b, n, r, c);
    }
  }

  lemma SparedLater(tb0: Table, tb: Table, i: nat, j: nat, failed: set<Glfd>)
    requires Spared(tb0, tb, i, failed) && i <= j <= |tb.open|
    ensures Spared(tb0, tb, j, failed)
  {
    assert tb.open[..i] == tb.open[..j][..i];
  }

  lemma MigrateFromPosition(s: State, t: Tid, n: Graph, c: Option<Inode>, i: nat)
    requires t < |s.threads| && i <= |s.table.open|
    ensures var s' := MigrateFrom(s, t, n, c, i);
      && s'.table == s.table && t < |s'.threads|
      && i <= Position(s'.threads[t], |s.table.open|) <= |s.table.open|
  {
    MigrateFromOutcome(s, t, n, c, i);
  }

  /** A step of the switch moves its position on, past a glfd if it migrates one. */
  lemma OwnerPosition(s: State, t: Tid, p: Pc, a: Action)
    requires t < |s.threads| && Can(s, p, a) && SwitchAction(a) && InSwitch(p)
    ensures var s' := ActSwitch(s, t, p, a);
      && t < |s'.threads| && s'.table.open == s.table.open
      && Position(p, |s.table.open|) + (if a.FdMigrated? then 1 else 0)
         <= Position(s'.threads[t], |s.table.open|) <= |s.table.open|
  {
    if a.LookupDone? && s.cwd.None? {
      MigrateFromPosition(s, t, p.target, None, 0);
    } else if a.CwdRefreshed? {
      MigrateFromPosition(s, t, p.target, Some(Inode(p.target, s.cwd.value.gfid)), 0);
    } else if a.FdMigrated? {
      var s1 := s.(table := Migrated(s.table, s.table.open[p.index], p.target, a.result));
      MigrateFromPosition(s1, t, p.target, p.newCwd, p.index + 1);
    }
  }

  lemma OwnerSpares(s0: State, s: State, t: Tid, e: Event, failed: set<Glfd>)
    requires Inv(s) && Enabled(s, e) && e.tid == t && t < |s.threads| && InSwitch(s.threads[t])
    requires Spared(s0.table, s.table, Position(s.threads[t], |s.table.open|), failed)
    ensures var s' := Apply(s, e);
      && t < |s'.threads|
      && Spared(s0.table, s'.table, Position(s'.threads[t], |s'.table.open|), failed + FailedFd(s, e, t))
  {
    var s', p, a := Apply(s, e), s.threads[t], e.action;
    var i := Position(p, |s.table.open|);
    assert SwitchAction(a) && s' == ActSwitch(s, t, p, a);
    SwitchTable(s, t, a, 0);
    OwnerPosition(s, t, p, a);
    if a.FdMigrated? {
      MigratedSpares(s0.table, s.table, p.target, i, a.result, failed);
      SparedLater(s0.table, s'.table, i + 1, Position(s'.threads[t], |s.table.open|), failed + FailedFd(s, e, t));
    } else {
      SparedLater(s0.table, s.table, i, Position(s'.threads[t], |s.table.open|), failed);
      assert failed + FailedFd(s, e, t) == failed;
    }
  }

  lemma FrozenSpares(s0: State, s: State, s': State, i: nat, failed: set<Glfd>)
    requires Frozen(s, s') && Spared(s0.table, s.table, i, failed)
    ensures Spared(s0.table, s'.table, i, failed)
  {
    forall b | b in failed ensures b in s.table.open {
      assert b in s.table.open[..i];
    }
  }

  lemma {:induction false} FailedAreSame(s0: State, s: State, t: Tid, run: seq<Event>, failed: set<Glfd>)
    requires Inv(s) && Legal(s, run) && UntilReturn(s, run, t)
    requires Spared(s0.table, s.table, Position(s.threads[t], |s.table.open|), failed)
    ensures forall b :: b in failed + FailedFds(s, run, t) ==> SameSlot(s0.table, Exec(s, run).table, b)
    decreases |run|
  {
    if run != [] {
      var s', failed' := Apply(s, run[0]), failed + FailedFd(s, run[0], t);
      StepKeepsInv(s, run[0]);
      if run[0].tid == t {
        OwnerSpares(s0, s, t, run[0], failed);
      } else {
        OtherKeepsPc(s, t, run[0]);
        FrozenSpares(s0, s, s', Position(s.threads[t], |s.table.open|), failed);
        assert failed' == failed;
      }
      FailedAreSame(s0, s', t, run[1..], failed');
      assert failed + FailedFds(s, run, t) == failed' + FailedFds(s', run[1..], t);
    }
  }

  /** A switch is all or nothing, under every interleaving. If its first lookup or its cwd
      refresh fails, active, old, cwd and every open fd are as they were. Otherwise it returns
      the graph it set out for, which is the active one exactly when nothing replaced it in the
      next slot before the exchange; and every open fd with a gfid is on that graph unless its
      own migration failed, in which case it is exactly the fd it was. */
  lemma SwitchAllOrNothing(before: seq<Event>, t: Tid, run: seq<Event>)
    requires Legal(INITIAL, before)
    requires var s0 := Exec(INITIAL, before);
      && Enabled(s0, Event(t, BeginActive)) && s0.graphs.next.Some?
      && Legal(Apply(s0, Event(t, BeginActive)), run) && UntilReturn(Apply(s0, Event(t, BeginActive)), run, t)
    ensures var s0 := Exec(INITIAL, before);
      var n := s0.graphs.next.value;
      var s1 := Apply(s0, Event(t, BeginActive));
      var s := Exec(s1, run);
      if AnyFails(run, t) then Aborted(s0, s, t)
      else
        && Switched(s0, s, t, n)
        && (s.graphs.active == Some(n) <==> NextAtExchange(s1, run, t) == Some(n))
        && HandledUpTo(s, n, |s.table.open|, FailedFds(s1, run, t))
        && (forall b :: b in FailedFds(s1, run, t) ==> SameSlot(s0.table, s.table, b))
  {
    var s0 := Exec(INITIAL, before);
    var e := Event(t, BeginActive);
    ReachableInv(before);
    StepKeepsInv(s0, e);
    assert Frozen(s0, Apply(s0, e));
    SwitchEnds(s0, Apply(s0, e), t, s0.graphs.next.value, run, {});
    FailedAreSame(s0, Apply(s0, e), t, run, {});
    assert {} + FailedFds(Apply(s0, e), run, t) == FailedFds(Apply(s0, e), run, t);
  }

  // ---- fd references -----------------------------------------------------------------

  /** In every reachable state each fd has one reference per glfd that stores it plus one per
      call that uses it; an fd that is stored or used is alive. */
  lemma FdRefsAreReferences(run: seq<Event>, f: FdId)
    requires Legal(INITIAL, run)
    ensures var s := Exec(INITIAL, run);
      && s.table.Node(f).refs == |StoredIn(s.table, f)| + Users(s.threads, f)
      && (forall b :: b in s.table.slots && s.table.slots[b] == f ==> s.table.Node(f).refs >= 1)
      && (forall t :: 0 <= t < |s.threads| && Uses(s.threads[t], f) == 1 ==> s.table.Node(f).refs >= 1)
  {
    var s := Exec(INITIAL, run);
    ReachableInv(run);
    assert FdExcess(s, f) == 0;
    forall b | b in s.table.slots && s.table.slots[b] == f ensures |StoredIn(s.table, f)| >= 1 {
      assert b in StoredIn(s.table, f);
    }
    forall t | 0 <= t < |s.threads| && Uses(s.threads[t], f) == 1 ensures Users(s.threads, f) >= 1 {
      UsersAtLeast(s.threads, t, f);
    }
  }
}
