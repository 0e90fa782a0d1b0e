/** The supervisor over whole runs: no lost wakeup, no leaked task, bounded restarts. */
module SupervisorRuns {
  import opened Bytes
  import opened Collections
  import opened SupervisorModel
  import opened SupervisorSafety

  // ----- delivering an event

  lemma AllAfterDequeue(s: State, s1: State, e: Event, j: nat)
    requires e in s.queue && s1 == s.(queue := s.queue - multiset{e}) && j < |s.children| && ChildInv(s, j)
    requires e.Shutdown? || e.id != j || e.generation != s.children[j].generation
    ensures ChildInv(s1, j)
  {
    if e.Shutdown? || e.id != j {
      DequeueOther(s, e, j);
      SameForKeeps(s, s1, j);
    } else {
      DequeueStale(s, e);
    }
  }

  /** Quietness does not depend on a child's state or failure tally. */
  lemma QuietNoted(s: State, i: nat, c: Child)
    requires Quiet(s, i) && c.abort.None? && c.generation == s.children[i].generation
    ensures Quiet(SetChild(s, i, c), i)
    ensures forall j: nat :: j != i && j < |s.children| ==> SameFor(s, SetChild(s, i, c), j)
  {
    var s' := SetChild(s, i, c);
    forall g: nat ensures NoTokens(s', i, g) <==> NoTokens(s, i, g) {
    }
  }

  lemma ExitDelivered(s: State, s': State, e: Event)
    requires e.ChildExited? && e in s.queue && !s.shuttingDown
    requires forall j: nat :: j < |s.children| ==> ChildInv(s, j)
    requires s' == HandleChildExited(s.(queue := s.queue - multiset{e}), e.id, e.generation, e.exit)
    ensures |s'.children| == |s.children| && s'.shuttingDown == s.shuttingDown && s'.status == s.status
    ensures forall j: nat :: j < |s.children| ==> ChildInv(s', j)
    ensures forall j: nat :: j < |s.children| && !Affected(s.strategy, e.id, j) ==> SameFor(s, s', j)
  {
    var s1 := s.(queue := s.queue - multiset{e});
    if e.id >= |s.children| || s.children[e.id].generation != e.generation {
      forall j: nat | j < |s.children| ensures ChildInv(s', j) && (j != e.id ==> SameFor(s, s', j)) {
        AllAfterDequeue(s, s1, e, j);
        if j != e.id {
          DequeueOther(s, e, j);
        }
      }
    } else {
      ExitNoted(s, s1, e);
      var c, abnormal := s.children[e.id], Abnormal(e.exit);
      var s2 := SetChild(s1, e.id, NoteExit(c, abnormal));
      CascadeRestores(s2, s', e.id, Restarts(c.policy, abnormal), abnormal);
      forall j: nat | j < |s.children| && !Affected(s.strategy, e.id, j) ensures SameFor(s, s', j) {
        SameForTransitive(s, s2, s', j);
      }
    }
  }

  lemma ExitNoted(s: State, s1: State, e: Event)
    requires e.ChildExited? && e in s.queue && s1 == s.(queue := s.queue - multiset{e})
    requires e.id < |s.children| && s.children[e.id].generation == e.generation
    requires forall j: nat :: j < |s.children| ==> ChildInv(s, j)
    ensures var s2 := SetChild(s1, e.id, NoteExit(s.children[e.id], Abnormal(e.exit)));
            && Quiet(s2, e.id)
            && forall j: nat :: j < |s.children| && j != e.id ==> ChildInv(s2, j) && SameFor(s, s2, j)
  {
    var c := s.children[e.id];
    var s2 := SetChild(s1, e.id, NoteExit(c, Abnormal(e.exit)));
    var quiet := SetChild(s1, e.id, c.(abort := None));
    DequeueCurrent(s, e);
    QuietNoted(quiet, e.id, NoteExit(c, Abnormal(e.exit)));
    assert SetChild(quiet, e.id, NoteExit(c, Abnormal(e.exit))) == s2;
    forall j: nat | j < |s.children| && j != e.id ensures ChildInv(s2, j) && SameFor(s, s2, j) {
      DequeueOther(s, e, j);
      assert SameFor(s, s2, j);
      SameForKeeps(s, s2, j);
    }
  }

  lemma ReadyDelivered(s: State, s': State, e: Event)
    requires e.RestartReady? && e in s.queue && !s.shuttingDown
    requires forall j: nat :: j < |s.children| ==> ChildInv(s, j)
    requires s' == HandleRestartReady(s.(queue := s.queue - multiset{e}), e.id, e.generation)
    ensures |s'.children| == |s.children| && s'.shuttingDown == s.shuttingDown && s'.status == s.status
    ensures forall j: nat :: j < |s.children| ==> ChildInv(s', j)
    ensures forall j: nat :: j < |s.children| && j != e.id ==> SameFor(s, s', j)
  {
    var s1 := s.(queue := s.queue - multiset{e});
    forall j: nat | j < |s.children| && j != e.id ensures SameFor(s, s1, j) && ChildInv(s1, j) {
      DequeueOther(s, e, j);
      SameForKeeps(s, s1, j);
    }
    if e.id < |s.children| && s.children[e.id].generation == e.generation {
      DequeueCurrent(s, e);
      assert SetChild(s1, e.id, s.children[e.id].(abort := None)) == s1;
      SpawnRuns(s1, e.id);
      forall j: nat | j < |s.children| && j != e.id ensures SameFor(s, s', j) && ChildInv(s', j) {
        SameForTransitive(s, s1, s', j);
        SameForKeeps(s1, s', j);
      }
    } else if e.id < |s.children| {
      AllAfterDequeue(s, s1, e, e.id);
    }
  }

  lemma ShutdownDelivered(s: State, s': State)
    requires Shutdown in s.queue && !s.shuttingDown
    requires forall j: nat :: j < |s.children| ==> ChildInv(s, j)
    requires s' == HandleShutdown(s.(queue := s.queue - multiset{Shutdown}))
    ensures s'.shuttingDown && s'.status == s.status && forall j: nat :: j < |s'.children| ==> Stopped(s', j)
  {
    var s1 := s.(queue := s.queue - multiset{Shutdown}, shuttingDown := true);
    forall j: nat | j < |s.children| ensures ChildInv(s1, j) {
      assert SameFor(s, s1, j);
      SameForKeeps(s, s1, j);
    }
    StopAllStops(s1, s', |s.children|);
  }

  lemma DeliverKeeps(s: State, s': State, e: Event)
    requires Inv(s) && Takes(s, s', Deliver(e))
    ensures Inv(s')
  {
    if s.shuttingDown {
      ShutdownReturnsAtOnce(s);
    } else {
      match e
      case ChildExited(_, _, _) => ExitDelivered(s, s', e);
      case RestartReady(_, _) => ReadyDelivered(s, s', e);
      case Shutdown => ShutdownDelivered(s, s');
    }
  }

  // ----- every step

  lemma StepKeeps(s: State, s': State, step: Step)
    requires Inv(s) && Takes(s, s', step)
    ensures Inv(s')
  {
    match step
    case TaskEnds(id, g, exit) =>
      forall i: nat | i < |s.children|
        ensures (ChildInv(s, i) ==> ChildInv(s', i)) && (Stopped(s, i) ==> Stopped(s', i))
      {
        TaskEndsKeeps(s, s', id, g, exit, i);
      }
    case TimerFires(id, g) =>
      forall i: nat | i < |s.children|
        ensures (ChildInv(s, i) ==> ChildInv(s', i)) && (Stopped(s, i) ==> Stopped(s', i))
      {
        TimerFiresKeeps(s, s', id, g, i);
      }
    case ShutdownRequested => RequestKeeps(s, s');
    case Deliver(e) => DeliverKeeps(s, s', e);
    case DrainTimeout => ShutdownReturnsAtOnce(s);
    case Return => ReturnKeeps(s, s');
  }

  lemma RequestKeeps(s: State, s': State)
    requires Inv(s) && Takes(s, s', ShutdownRequested)
    ensures Inv(s')
  {
    forall i: nat | i < |s.children|
      ensures (ChildInv(s, i) ==> ChildInv(s', i)) && (Stopped(s, i) ==> Stopped(s', i))
    {
      assert SameFor(s, s', i);
      SameForKeeps(s, s', i);
    }
  }

  lemma ReturnKeeps(s: State, s': State)
    requires Inv(s) && Takes(s, s', Return)
    ensures Inv(s')
  {
    forall i: nat | i < |s.children|
      ensures (ChildInv(s, i) ==> ChildInv(s', i)) && (Stopped(s, i) ==> Stopped(s', i))
    {
      assert SameFor(s, s', i);
      SameForKeeps(s, s', i);
    }
  }

  // ----- starting

  lemma {:induction false} SpawnAllRuns(s: State, s': State, n: nat)
    requires n <= |s.children| && s' == SpawnAll(s, n)
    requires forall j: nat :: j < |s.children| ==> Quiet(s, j)
    ensures forall j: nat :: j < |s.children| ==> if j < n then ChildInv(s', j) else Quiet(s', j)
    decreases n
  {
    if n > 0 {
      var m, k := SpawnAll(s, n - 1), n - 1;
      SpawnAllRuns(s, m, k);
      SpawnRuns(m, k);
      forall j: nat | j < |s.children| ensures if j < n then ChildInv(s', j) else Quiet(s', j) {
        if j != k {
          SameForKeeps(m, s', j);
        }
      }
    }
  }

  lemma StartHolds(s: State)
    requires Registered(s)
    ensures Inv(SpawnAll(s, |s.children|))
  {
    forall j: nat | j < |s.children| ensures Quiet(s, j) {
      forall g: nat ensures NoTokens(s, j, g) {
      }
    }
    SpawnAllRuns(s, SpawnAll(s, |s.children|), |s.children|);
  }

  lemma {:induction false} RunKeeps(run: seq<State>, i: nat)
    requires IsRun(run) && i < |run|
    ensures Inv(run[i])
  {
    if i == 0 {
      var s :| Registered(s) && run[0] == SpawnAll(s, |s.children|);
      StartHolds(s);
    } else {
      RunKeeps(run, i - 1);
      assert StepAt(run, i - 1);
      var step :| Takes(run[i - 1], run[i], step);
      StepKeeps(run[i - 1], run[i], step);
    }
  }

  // ----- results over runs

  /** In every reachable state before shutdown each child is running with exactly one task (or its exit report)
      of its current generation that nobody asked to stop, or backing off with exactly one timer (or its
      report), or removed with neither. */
  lemma EveryChildAccountedFor(run: seq<State>, i: nat, c: nat)
    requires IsRun(run) && i < |run| && !run[i].shuttingDown && c < |run[i].children|
    ensures ChildInv(run[i], c)
  {
    RunKeeps(run, i);
  }

  /** A supervisor that would wait for an event always has one coming: a queued report, an unfinished task that
      was not aborted, or a pending timer. */
  lemma NeverWaitsInVain(run: seq<State>, i: nat)
    requires IsRun(run) && i < |run| && run[i].status.Looping? && LoopTop(run[i]).None?
    ensures run[i].queue != multiset{} || run[i].timers != {} || exists t :: t in run[i].tasks && !run[i].tasks[t]
  {
    RunKeeps(run, i);
    var s := run[i];
    if s.shuttingDown {
      ShutdownReturnsAtOnce(s);
    } else {
      var c: nat :| c < |s.children| && !s.children[c].state.Removed?;
      assert ChildInv(s, c);
      var g := s.children[c].generation;
      if s.children[c].state.Running? && (c, g) !in s.tasks {
        assert ExitsQueued(s, c, g) == 1;
        assert ChildExited(c, g, ExitOk) in s.queue || ChildExited(c, g, ExitErr) in s.queue
          || ChildExited(c, g, ExitPanic) in s.queue || ChildExited(c, g, ExitCancelled) in s.queue;
      } else if s.children[c].state.BackingOff? && (c, g) !in s.timers {
        assert RestartReady(c, g) in s.queue;
      }
    }
  }

  /** When `run` returns, no abort handle is left and every unfinished task of a child was told to stop. The
      reason is never a shutdown timeout: a shutdown request ends the loop at once. */
  lemma ReturnLeavesNothing(run: seq<State>, i: nat, c: nat)
    requires IsRun(run) && i < |run| && run[i].status.Returned? && c < |run[i].children|
    ensures run[i].children[c].abort.None?
    ensures forall g: nat :: (c, g) in run[i].tasks ==> run[i].tasks[(c, g)]
    ensures run[i].status.reason == if run[i].shuttingDown then ShutdownDone else AllChildrenStopped
  {
    RunKeeps(run, i);
    var s := run[i];
    if s.shuttingDown {
      assert Stopped(s, c);
    } else {
      assert ChildInv(s, c);
      forall g: nat | (c, g) in s.tasks ensures s.tasks[(c, g)] {
        assert !NoTokens(s, c, g);
      }
    }
  }

  /** A child outside the reach of the strategy is not touched by another child's exit: under OneForOne only
      the exited child changes, under RestForOne nothing registered before it does. */
  lemma ExitStaysInScope(run: seq<State>, i: nat, e: Event, j: nat)
    requires IsRun(run) && i + 1 < |run| && e.ChildExited? && Takes(run[i], run[i + 1], Deliver(e))
    requires !run[i].shuttingDown && j < |run[i].children| && !Affected(run[i].strategy, e.id, j)
    ensures SameFor(run[i], run[i + 1], j)
  {
    RunKeeps(run, i);
    ExitDelivered(run[i], run[i + 1], e);
  }

  // ----- restarts by policy

  /** A Temporary child has been started once and never waits for a restart. */
  predicate OncePerLife(c: Child) {
    c.policy.Temporary? ==> c.spawns == 1 && !c.state.BackingOff?
  }

  ghost predicate AllOnce(s: State) {
    forall j: nat :: j < |s.children| ==> OncePerLife(s.children[j])
  }

  lemma {:induction false} TerminateSetOnce(s: State, scope: Scope, n: nat)
    requires n <= |s.children| && AllOnce(s)
    ensures AllOnce(TerminateSet(s, scope, n))
    ensures forall j: nat :: j < |s.children| ==> TerminateSet(s, scope, n).children[j].policy == s.children[j].policy
  {
    if n > 0 {
      TerminateSetOnce(s, scope, n - 1);
    }
  }

  lemma {:induction false} RespawnSetOnce(s: State, failed: nat, restart: bool, abnormal: bool, lo: nat, n: nat)
    requires lo <= n <= |s.children| && AllOnce(s) && failed < |s.children|
    requires restart ==> !s.children[failed].policy.Temporary?
    ensures AllOnce(RespawnSet(s, failed, restart, abnormal, lo, n))
    ensures forall j: nat :: j < |s.children| ==>
      RespawnSet(s, failed, restart, abnormal, lo, n).children[j].policy == s.children[j].policy
    decreases n
  {
    if lo < n {
      RespawnSetOnce(s, failed, restart, abnormal, lo, n - 1);
    }
  }

  lemma HandleOnce(s: State, e: Event)
    requires AllOnce(s)
    ensures AllOnce(Handle(s, e))
  {
    match e
    case ChildExited(id, g, exit) =>
      if id < |s.children| && s.children[id].generation == g && !s.shuttingDown {
        var c, n := s.children[id], |s.children|;
        var s2 := SetChild(s, id, NoteExit(c, Abnormal(exit)));
        var restart := Restarts(c.policy, Abnormal(exit));
        assert AllOnce(s2);
        match s.strategy {
          case OneForAll =>
            TerminateSetOnce(s2, Others(id), n);
            RespawnSetOnce(TerminateSet(s2, Others(id), n), id, restart, Abnormal(exit), 0, n);
          case RestForOne =>
            TerminateSetOnce(s2, Later(id), n);
            RespawnSetOnce(TerminateSet(s2, Later(id), n), id, restart, Abnormal(exit), id, n);
          case _ =>
        }
      }
    case RestartReady(id, g) =>
    case Shutdown =>
      if !s.shuttingDown {
        StopAllOnce(s.(shuttingDown := true), |s.children|);
      }
  }

  lemma {:induction false} StopAllOnce(s: State, n: nat)
    requires n <= |s.children| && AllOnce(s)
    ensures AllOnce(StopAll(s, n))
  {
    if n > 0 {
      StopAllOnce(s, n - 1);
    }
  }

  lemma {:induction false} SpawnAllOnce(s: State, n: nat)
    requires n <= |s.children| && Registered(s)
    ensures forall j: nat :: j < |s.children| ==>
      SpawnAll(s, n).children[j].spawns == (if j < n then 1 else 0) && !SpawnAll(s, n).children[j].state.BackingOff?
  {
    if n > 0 {
      SpawnAllOnce(s, n - 1);
    }
  }

  lemma StepOnce(s: State, s': State, step: Step)
    requires Inv(s) && AllOnce(s) && Takes(s, s', step)
    ensures AllOnce(s')
  {
    if step.DrainTimeout? {
      ShutdownReturnsAtOnce(s);
    } else if step.Deliver? {
      HandleOnce(s.(queue := s.queue - multiset{step.e}), step.e);
    }
  }

  /** Under every strategy, a Temporary child's factory is called exactly once in the whole run. */
  lemma {:induction false} TemporaryStartsOnce(run: seq<State>, i: nat)
    requires IsRun(run) && i < |run|
    ensures AllOnce(run[i])
  {
    if i == 0 {
      var s :| Registered(s) && run[0] == SpawnAll(s, |s.children|);
      SpawnAllOnce(s, |s.children|);
      forall j: nat | j < |s.children| ensures OncePerLife(run[0].children[j]) {
        assert SpawnAll(s, |s.children|).children[j].spawns == 1;
      }
    } else {
      TemporaryStartsOnce(run, i - 1);
      RunKeeps(run, i - 1);
      assert StepAt(run, i - 1);
      var step :| Takes(run[i - 1], run[i], step);
      StepOnce(run[i - 1], run[i], step);
    }
  }

  // ----- failure tallies

  lemma {:induction false} TerminateSetTallies(s: State, scope: Scope, n: nat, j: nat)
    requires n <= |s.children| && j < |s.children|
    ensures TerminateSet(s, scope, n).children[j].failures == s.children[j].failures
  {
    if n > 0 {
      TerminateSetTallies(s, scope, n - 1, j);
    }
  }

  lemma {:induction false} RespawnSetTallies(s: State, failed: nat, restart: bool, abnormal: bool,
                                             lo: nat, n: nat, j: nat)
    requires lo <= n <= |s.children| && j < |s.children|
    ensures RespawnSet(s, failed, restart, abnormal, lo, n).children[j].failures == s.children[j].failures
    decreases n
  {
    if lo < n {
      RespawnSetTallies(s, failed, restart, abnormal, lo, n - 1, j);
    }
  }

  /** An error or a panic adds one to the exited child's tally, up to saturation, and any other exit clears it; the
      tallies of children restarted along with it are kept. */
  lemma ExitSetsTally(s: State, id: nat, exit: Exit, j: nat)
    requires id < |s.children| && j < |s.children| && !s.shuttingDown
    ensures HandleChildExited(s, id, s.children[id].generation, exit).children[j].failures ==
      if j != id then s.children[j].failures
      else match exit {
        case ExitOk => 0
        case ExitCancelled => 0
        case _ => if s.children[id].failures < U32_MAX then s.children[id].failures + 1 else s.children[id].failures
      }
  {
    var c, n := s.children[id], |s.children|;
    var s2 := SetChild(s, id, NoteExit(c, Abnormal(exit)));
    var restart := Restarts(c.policy, Abnormal(exit));
    match s.strategy
    case OneForAll =>
      TerminateSetTallies(s2, Others(id), n, j);
      RespawnSetTallies(TerminateSet(s2, Others(id), n), id, restart, Abnormal(exit), 0, n, j);
    case RestForOne =>
      TerminateSetTallies(s2, Later(id), n, j);
      RespawnSetTallies(TerminateSet(s2, Later(id), n), id, restart, Abnormal(exit), id, n, j);
    case _ =>
  }
}
