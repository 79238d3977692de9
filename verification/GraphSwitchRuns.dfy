/**
  What a whole run of the graph switch guarantees: no reference leaks, a graph is told
  PARENT_DOWN exactly when its last reference goes, and a switch is all or nothing.
 */
module GraphSwitchRuns {
  import opened Wrappers
  import opened GraphSwitch
  import opened GraphSwitchSafety
  import opened GraphSwitchInv

  lemma ReachableInv(run: seq<Event>)
    requires Legal(INITIAL, run)
    ensures Inv(Exec(INITIAL, run))
  {
    InitialInv();
    RunKeepsInv(INITIAL, run);
  }

  /** No slot and no call refers to `g`. */
  predicate Unreferenced(s: State, g: Graph) {
    InSlots(s.graphs, g) == 0 && forall i :: 0 <= i < |s.threads| ==> Owns(s.threads[i], g) == 0
  }

  lemma {:induction false} OwnedZero(ts: seq<Pc>, g: Graph)
    ensures Owned(ts, g) == 0 <==> forall i :: 0 <= i < |ts| ==> Owns(ts[i], g) == 0
  {
    if ts != [] {
      OwnedZero(ts[1..], g);
      assert forall i :: 0 <= i < |ts[1..]| ==> ts[1..][i] == ts[i + 1];
      if Owned(ts[1..], g) == 0 && Owns(ts[0], g) == 0 {
        forall i | 0 <= i < |ts| ensures Owns(ts[i], g) == 0 {
          if i > 0 { assert ts[i] == ts[1..][i - 1]; }
        }
      }
    }
  }

  lemma ZeroMeansUnreferenced(s: State, g: Graph)
    requires Inv(s)
    ensures Winds(s, g) == 0 <==> Unreferenced(s, g)
  {
    CountsNotNegative(s, g);
    OwnedZero(s.threads, g);
  }

  /** glfs_subvol_done sends PARENT_DOWN exactly when the reference it drops was the last one:
      then nothing refers to the graph any more, so it is not the active graph. */
  lemma DropNotifiesLast(run: seq<Event>, e: Event)
    requires Legal(INITIAL, run) && Enabled(Exec(INITIAL, run), e) && e.action.SubvolDone?
    ensures var s := Exec(INITIAL, run); var s' := Apply(s, e);
      var g := ToDrop(s.threads[e.tid]).value;
      && Winds(s, g) >= 1
      && s'.graphs.down == (if Unreferenced(s', g) then s.graphs.down + [g] else s.graphs.down)
      && (Winds(s', g) == 0 ==> s'.graphs.active != Some(g))
  {
    var s := Exec(INITIAL, run);
    var g := ToDrop(s.threads[e.tid]).value;
    ReachableInv(run);
    CountsNotNegative(s, g);
    OwnedAtLeast(s.threads, e.tid, g);
    StepKeepsInv(s, e);
    ZeroMeansUnreferenced(Apply(s, e), g);
  }

  /** Nothing leaks: a graph that came up and that nothing refers to has been told PARENT_DOWN. */
  lemma NoGraphLeaks(run: seq<Event>, g: Graph)
    requires Legal(INITIAL, run)
    ensures var s := Exec(INITIAL, run);
      g in s.graphs.winds && Unreferenced(s, g) ==> g in s.graphs.down
  {
    var s := Exec(INITIAL, run);
    ReachableInv(run);
    ZeroMeansUnreferenced(s, g);
  }

  /** The graph being switched to keeps a reference in every window of the switch, even when
      a notification has displaced it from the next slot. */
  lemma TargetStaysUp(run: seq<Event>, t: Tid)
    requires Legal(INITIAL, run)
    ensures var s := Exec(INITIAL, run);
      t < |s.threads| && InSwitch(s.threads[t]) ==> Winds(s, s.threads[t].target) >= 1
  {
    var s := Exec(INITIAL, run);
    ReachableInv(run);
    if t < |s.threads| && InSwitch(s.threads[t]) {
      var n := s.threads[t].target;
      assert PcOk(s, s.threads[t]);
      CountsNotNegative(s, n);
      if Displaced(n) in s.threads {
        var i :| 0 <= i < |s.threads| && s.threads[i] == Displaced(n);
        OwnedAtLeast(s.threads, i, n);
      }
    }
  }

  /** Between steps old_subvol is only set while a migration is running. */
  lemma RetiringOnlyInMigration(run: seq<Event>)
    requires Legal(INITIAL, run)
    ensures var s := Exec(INITIAL, run); s.graphs.retiring.Some? ==> s.migrating
  {
    ReachableInv(run);
  }

  /** While one thread is inside a window, no step of another thread changes what the
      migration relies on, nor any reference count but that of a graph it puts in the next slot. */
  lemma WindowIsolation(run: seq<Event>, t: Tid, e: Event)
    requires Legal(INITIAL, run) && Enabled(Exec(INITIAL, run), e) && e.tid != t
    requires var s := Exec(INITIAL, run); t < |s.threads| && InWindow(s.threads[t])
    ensures Frozen(Exec(INITIAL, run), Apply(Exec(INITIAL, run), e))
    ensures OnlyNextGains(Exec(INITIAL, run), Apply(Exec(INITIAL, run), e))
  {
    ReachableInv(run);
    OthersFrozen(Exec(INITIAL, run), e);
  }

  /** A thread inside a window is never stuck: the call it waits for may fail or succeed. */
  lemma WindowCanClose(run: seq<Event>, t: Tid)
    requires Legal(INITIAL, run)
    ensures var s := Exec(INITIAL, run);
      t < |s.threads| && InWindow(s.threads[t]) ==> exists a :: Enabled(s, Event(t, a))
  {
    var s := Exec(INITIAL, run);
    ReachableInv(run);
    if t < |s.threads| && InWindow(s.threads[t]) {
      var p := s.threads[t];
      assert PcOk(s, p);
      match p
      case FirstLookup(_) => assert Enabled(s, Event(t, LookupDone(true)));
      case RefreshCwd(_) => assert Enabled(s, Event(t, CwdRefreshed(true)));
      case MigrateFd(n, _, i) =>
        var b := s.table.open[i];
        assert Enabled(s, Event(t, FdMigrated(if s.table.At(b).graph == n then Some(s.table.Stored(b)) else None)));
      case InstallCwd(_, _) => assert Enabled(s, Event(t, CwdInstalled(true)));
      case ResolveFd(_, _) => assert Enabled(s, Event(t, FdResolved(None)));
      case SetCwd(_, _) => assert Enabled(s, Event(t, CwdSetDone(true)));
      case GetCwd(_) => assert Enabled(s, Event(t, CwdGetDone));
    }
  }

  /** A step of another thread leaves a thread inside a window where it is. */
  lemma OtherKeepsPc(s: State, t: Tid, e: Event)
    requires Inv(s) && Enabled(s, e) && e.tid != t && t < |s.threads| && InWindow(s.threads[t])
    ensures var s' := Apply(s, e); t < |s'.threads| && s'.threads[t] == s.threads[t] && Frozen(s, s')
  {
    OthersFrozen(s, e);
    if !e.action.Spawn? {
      BystanderMoves(s, e);
    }
  }
}
