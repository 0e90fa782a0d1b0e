/** Generations over whole runs: what was stopped stays without effect, and when a removed child runs again. */
module SupervisorRevival {
  import opened Collections
  import opened SupervisorModel
  import opened SupervisorSafety
  import opened SupervisorRuns

  // ----- generations never go back, policies never change

  ghost predicate Newer(s: State, s': State, j: nat) {
    && j < |s.children| == |s'.children| && s'.children[j].policy == s.children[j].policy
    && s.children[j].generation <= s'.children[j].generation
  }

  lemma {:induction false} TerminateSetNewer(s: State, scope: Scope, n: nat, j: nat)
    requires n <= |s.children| && j < |s.children|
    ensures Newer(s, TerminateSet(s, scope, n), j)
  {
    if n > 0 {
      TerminateSetNewer(s, scope, n - 1, j);
    }
  }

  lemma {:induction false} RespawnSetNewer(s: State, failed: nat, restart: bool, abnormal: bool,
                                           lo: nat, n: nat, j: nat)
    requires lo <= n <= |s.children| && j < |s.children|
    ensures Newer(s, RespawnSet(s, failed, restart, abnormal, lo, n), j)
    decreases n
  {
    if lo < n {
      RespawnSetNewer(s, failed, restart, abnormal, lo, n - 1, j);
    }
  }

  lemma CascadeNewer(s: State, failed: nat, restart: bool, abnormal: bool, j: nat)
    requires failed < |s.children| && j < |s.children|
    ensures Newer(s, Cascade(s, failed, restart, abnormal), j)
  {
    var n := |s.children|;
    match s.strategy
    case OneForAll =>
      TerminateSetNewer(s, Others(failed), n, j);
      RespawnSetNewer(TerminateSet(s, Others(failed), n), failed, restart, abnormal, 0, n, j);
    case RestForOne =>
      TerminateSetNewer(s, Later(failed), n, j);
      RespawnSetNewer(TerminateSet(s, Later(failed), n), failed, restart, abnormal, failed, n, j);
    case _ =>
  }

  lemma {:induction false} StopAllNewer(s: State, n: nat, j: nat)
    requires n <= |s.children| && j < |s.children|
    ensures Newer(s, StopAll(s, n), j)
  {
    if n > 0 {
      StopAllNewer(s, n - 1, j);
    }
  }

  lemma StepNewer(s: State, s': State, step: Step, j: nat)
    requires Inv(s) && Takes(s, s', step) && j < |s.children|
    ensures Newer(s, s', j) && (s.shuttingDown ==> s'.shuttingDown) && s'.strategy == s.strategy
  {
    if step.DrainTimeout? {
      ShutdownReturnsAtOnce(s);
    } else if step.Deliver? {
      var s1, e := s.(queue := s.queue - multiset{step.e}), step.e;
      if e.ChildExited? && e.id < |s.children| && s.children[e.id].generation == e.generation && !s.shuttingDown {
        var c, abnormal := s.children[e.id], Abnormal(e.exit);
        CascadeNewer(SetChild(s1, e.id, NoteExit(c, abnormal)), e.id, Restarts(c.policy, abnormal), abnormal, j);
      } else if e.Shutdown? && !s.shuttingDown {
        StopAllNewer(s1.(shuttingDown := true), |s.children|, j);
      }
    }
  }

  lemma {:induction false} RunNewer(run: seq<State>, a: nat, b: nat, j: nat)
    requires IsRun(run) && a <= b < |run| && j < |run[a].children|
    ensures Newer(run[a], run[b], j) && (run[a].shuttingDown ==> run[b].shuttingDown)
    ensures run[b].strategy == run[a].strategy
    decreases b
  {
    if a < b {
      RunNewer(run, a, b - 1, j);
      RunKeeps(run, b - 1);
      assert StepAt(run, b - 1);
      var step :| Takes(run[b - 1], run[b], step);
      StepNewer(run[b - 1], run[b], step, j);
    }
  }

  // ----- what was stopped stays without effect

  /** Only the queue changes when the event is taken off it. */
  ghost predicate Ignored(s: State, s': State, e: Event) {
    s' == s.(queue := s.queue - multiset{e})
  }

  /** Once a task was told to stop, its exit report changes nothing whenever it comes: no later incarnation of the
      child is taken for it. */
  lemma AbortedTaskIsIgnored(run: seq<State>, a: nat, b: nat, e: Event)
    requires IsRun(run) && a <= b && b + 1 < |run| && e.ChildExited?
    requires (e.id, e.generation) in run[a].tasks && run[a].tasks[(e.id, e.generation)]
    requires Takes(run[b], run[b + 1], Deliver(e))
    ensures Ignored(run[b], run[b + 1], e)
  {
    RunKeeps(run, a);
    RunKeeps(run, b);
    ShapeKept(run, a, b);
    if e.id < |run[a].children| {
      RunNewer(run, a, b, e.id);
      if run[b].shuttingDown {
        ShutdownReturnsAtOnce(run[b]);
      } else {
        OutdatedTask(run[a], e.id, e.generation);
      }
    }
  }

  lemma OutdatedTask(s: State, i: nat, g: nat)
    requires ChildInv(s, i) && (i, g) in s.tasks && s.tasks[(i, g)]
    ensures g < s.children[i].generation
  {
    assert g > s.children[i].generation ==> NoTokens(s, i, g);
  }

  /** A backoff that is no longer the child's current one reports in vain, whenever its timer fires. */
  lemma SupersededTimerIsIgnored(run: seq<State>, a: nat, b: nat, e: Event)
    requires IsRun(run) && a <= b && b + 1 < |run| && e.RestartReady?
    requires (e.id, e.generation) in run[a].timers || e in run[a].queue
    requires e.id < |run[a].children| ==>
      !(run[a].children[e.id].state.BackingOff? && run[a].children[e.id].generation == e.generation)
    requires Takes(run[b], run[b + 1], Deliver(e))
    ensures Ignored(run[b], run[b + 1], e)
  {
    RunKeeps(run, a);
    RunKeeps(run, b);
    ShapeKept(run, a, b);
    if e.id < |run[a].children| {
      RunNewer(run, a, b, e.id);
      if run[b].shuttingDown {
        ShutdownReturnsAtOnce(run[b]);
      } else {
        OutdatedTimer(run[a], e.id, e.generation);
      }
    }
  }

  lemma OutdatedTimer(s: State, i: nat, g: nat)
    requires ChildInv(s, i) && ((i, g) in s.timers || RestartReady(i, g) in s.queue)
    requires !(s.children[i].state.BackingOff? && s.children[i].generation == g)
    ensures g < s.children[i].generation
  {
    assert TimerTokens(s, i, g) > 0;
    assert g > s.children[i].generation ==> NoTokens(s, i, g);
  }

  lemma StepShape(s: State, s': State, step: Step)
    requires Takes(s, s', step)
    ensures |s'.children| == |s.children|
  {
    if step.Deliver? {
      HandleShape(s.(queue := s.queue - multiset{step.e}), step.e);
    }
  }

  lemma HandleShape(s: State, e: Event)
    ensures |Handle(s, e).children| == |s.children|
  {
  }

  lemma {:induction false} ShapeKept(run: seq<State>, a: nat, b: nat)
    requires IsRun(run) && a <= b < |run|
    ensures |run[b].children| == |run[a].children|
    decreases b
  {
    if a < b {
      ShapeKept(run, a, b - 1);
      assert StepAt(run, b - 1);
      var step :| Takes(run[b - 1], run[b], step);
      StepShape(run[b - 1], run[b], step);
    }
  }

  // ----- when a removed child runs again

  /** Delivering `e` restarts child `c` along with the child that exited. */
  predicate Revives(s: State, e: Event, c: nat) {
    && e.ChildExited? && e.id < |s.children| && e.generation == s.children[e.id].generation
    && c < |s.children| && e.id != c && Affected(s.strategy, e.id, c) && !s.children[c].policy.Temporary?
  }

  lemma {:induction false} RespawnSetStates(s: State, failed: nat, restart: bool, abnormal: bool,
                                            lo: nat, n: nat, j: nat)
    requires lo <= n <= |s.children| && j < |s.children| && j != failed
    ensures var c := RespawnSet(s, failed, restart, abnormal, lo, n).children[j];
      if lo <= j < n then c.state == (if s.children[j].policy.Temporary? then Removed else Running)
      else c == s.children[j]
    decreases n
  {
    if lo < n {
      RespawnSetStates(s, failed, restart, abnormal, lo, n - 1, j);
      RespawnSetNewer(s, failed, restart, abnormal, lo, n - 1, j);
    }
  }

  /** A cascade leaves every other child in its reach running, or removed if it is Temporary. */
  lemma CascadeStates(s: State, failed: nat, restart: bool, abnormal: bool, j: nat)
    requires failed < |s.children| && j < |s.children| && j != failed && Affected(s.strategy, failed, j)
    ensures Cascade(s, failed, restart, abnormal).children[j].state ==
      if s.children[j].policy.Temporary? then Removed else Running
  {
    var n := |s.children|;
    match s.strategy
    case OneForAll =>
      TerminateSetNewer(s, Others(failed), n, j);
      RespawnSetStates(TerminateSet(s, Others(failed), n), failed, restart, abnormal, 0, n, j);
    case RestForOne =>
      TerminateSetNewer(s, Later(failed), n, j);
      RespawnSetStates(TerminateSet(s, Later(failed), n), failed, restart, abnormal, failed, n, j);
  }

  lemma ExitStates(s: State, s': State, e: Event, c: nat)
    requires Takes(s, s', Deliver(e)) && !s.shuttingDown && Revives(s, e, c)
    ensures s'.children[c].state.Running?
  {
    var child, abnormal := s.children[e.id], Abnormal(e.exit);
    var s2 := SetChild(s.(queue := s.queue - multiset{e}), e.id, NoteExit(child, abnormal));
    CascadeStates(s2, e.id, Restarts(child.policy, abnormal), abnormal, c);
  }

  /** A removed child is brought back by an event exactly when it is the current exit of another child whose
      strategy reaches it, and it is not Temporary: a clean exit is enough. */
  lemma RevivedIff(s: State, s': State, e: Event, c: nat)
    requires Inv(s) && !s.shuttingDown && c < |s.children| && s.children[c].state.Removed?
    requires Takes(s, s', Deliver(e))
    ensures |s'.children| == |s.children| && (!s'.children[c].state.Removed? <==> Revives(s, e, c))
  {
    if Revives(s, e, c) {
      ExitStates(s, s', e, c);
    } else if e.Shutdown? {
      StopKeepsRemoved(s.(queue := s.queue - multiset{e}, shuttingDown := true), |s.children|, c);
    } else {
      NotRevived(s, s', e, c);
    }
  }

  lemma NotRevived(s: State, s': State, e: Event, c: nat)
    requires Inv(s) && !s.shuttingDown && c < |s.children| && s.children[c].state.Removed?
    requires Takes(s, s', Deliver(e)) && !Revives(s, e, c) && !e.Shutdown?
    ensures |s'.children| == |s.children| && s'.children[c].state.Removed?
  {
    assert ChildInv(s, c);
    if e.id == c && e.generation == s.children[c].generation {
      DequeueCurrent(s, e);
    } else if e.ChildExited? {
      ExitDelivered(s, s', e);
      if e.id < |s.children| && e.generation == s.children[e.id].generation && Affected(s.strategy, e.id, c) {
        var child, abnormal := s.children[e.id], Abnormal(e.exit);
        var s2 := SetChild(s.(queue := s.queue - multiset{e}), e.id, NoteExit(child, abnormal));
        CascadeStates(s2, e.id, Restarts(child.policy, abnormal), abnormal, c);
      } else if !Affected(s.strategy, e.id, c) {
        assert SameFor(s, s', c);
      }
    } else {
      ReadyDelivered(s, s', e);
      if e.id != c {
        assert SameFor(s, s', c);
      }
    }
  }

  lemma {:induction false} StopKeepsRemoved(s: State, n: nat, c: nat)
    requires n <= |s.children| && c < |s.children| && s.children[c].state.Removed?
    ensures StopAll(s, n).children[c].state.Removed?
  {
    if n > 0 {
      StopKeepsRemoved(s, n - 1, c);
    }
  }

  /** The step from `n` does not bring child `c` back. */
  ghost predicate LeftAlone(run: seq<State>, n: nat, c: nat) {
    n + 1 < |run| ==>
      forall e :: Takes(run[n], run[n + 1], Deliver(e)) && !run[n].shuttingDown ==> !Revives(run[n], e, c)
  }

  /** A removed child stays removed for as long as no such exit is delivered, through shutdown and return. */
  lemma {:induction false} RemovedStays(run: seq<State>, i: nat, j: nat, c: nat)
    requires IsRun(run) && i <= j < |run| && c < |run[i].children| && run[i].children[c].state.Removed?
    requires forall n: nat :: i <= n < j ==> LeftAlone(run, n, c)
    ensures c < |run[j].children| && run[j].children[c].state.Removed?
    decreases j
  {
    if i < j {
      RemovedStays(run, i, j - 1, c);
      RunKeeps(run, j - 1);
      assert StepAt(run, j - 1) && LeftAlone(run, j - 1, c);
      var step :| Takes(run[j - 1], run[j], step);
      RemovedStep(run[j - 1], run[j], step, c);
    }
  }

  lemma RemovedStep(s: State, s': State, step: Step, c: nat)
    requires Inv(s) && Takes(s, s', step) && c < |s.children| && s.children[c].state.Removed?
    requires step.Deliver? && !s.shuttingDown ==> !Revives(s, step.e, c)
    ensures c < |s'.children| && s'.children[c].state.Removed?
  {
    if step.DrainTimeout? {
      ShutdownReturnsAtOnce(s);
    } else if step.Deliver? {
      if s.shuttingDown {
        ShutdownReturnsAtOnce(s);
      } else {
        RevivedIff(s, s', step.e, c);
      }
    }
  }

  predicate Isolating(strategy: Strategy) {
    strategy.OneForOne? || strategy.SimpleOneForOne?
  }

  /** Under OneForOne and SimpleOneForOne, and for Temporary children under every strategy, removal is final. */
  lemma RemovedIsFinal(run: seq<State>, i: nat, j: nat, c: nat)
    requires IsRun(run) && i <= j < |run| && c < |run[i].children| && run[i].children[c].state.Removed?
    requires Isolating(run[i].strategy) || run[i].children[c].policy.Temporary?
    ensures c < |run[j].children| && run[j].children[c].state.Removed?
  {
    forall n: nat | i <= n < j ensures LeftAlone(run, n, c) {
      RunNewer(run, i, n, c);
    }
    RemovedStays(run, i, j, c);
  }

  // ----- a run in which a removed child comes back

  /** A Permanent child and a Transient one. */
  ghost function TwoChildren(strategy: Strategy): State {
    State(strategy, [Child(Permanent, 0, None, Idle, 0, 0), Child(Transient, 0, None, Idle, 0, 0)],
          map[], {}, multiset{}, false, Looping)
  }

  lemma Extend(run: seq<State>, s: State, step: Step)
    requires IsRun(run) && Takes(run[|run| - 1], s, step)
    ensures IsRun(run + [s])
  {
    var run' := run + [s];
    forall i: nat ensures StepAt(run', i) {
      assert StepAt(run, i);
    }
    assert run'[0] == run[0];
  }

  lemma Started(strategy: Strategy) returns (s: State)
    ensures IsRun([s]) && s.strategy == strategy && |s.children| == 2 && !s.shuttingDown && s.status.Looping?
    ensures s.children[0] == Child(Permanent, 1, Some(1), Running, 0, 1)
    ensures s.children[1] == Child(Transient, 1, Some(1), Running, 0, 1)
    ensures s.tasks == map[(0, 1) := false, (1, 1) := false] && s.queue == multiset{}
  {
    var s0 := TwoChildren(strategy);
    s := SpawnAll(s0, 2);
    assert SpawnAll(s0, 1) == SpawnChild(s0, 0);
    assert Registered(s0);
  }

  /** The Transient child exits cleanly and is removed. */
  lemma TransientGone(strategy: Strategy) returns (run: seq<State>, s: State)
    requires strategy.OneForAll? || strategy.RestForOne?
    ensures IsRun(run) && run[|run| - 1] == s && s.strategy == strategy && |s.children| == 2
    ensures !s.shuttingDown && s.status.Looping? && s.queue == multiset{}
    ensures s.children[1].state.Removed? && s.children[0].state.Running?
    ensures s.children[1].policy.Transient? && s.children[0].policy.Permanent?
  {
    var s0 := Started(strategy);
    run := [s0];
    var e := ChildExited(1, 1, ExitOk);
    var s1 := s0.(tasks := s0.tasks - {(1, 1)}, queue := multiset{e});
    Extend(run, s1, TaskEnds(1, 1, ExitOk));
    run := run + [s1];
    s := Handle(s1.(queue := s1.queue - multiset{e}), e);
    assert !s1.children[0].state.Removed?;
    assert Takes(s1, s, Deliver(e));
    Extend(run, s, Deliver(e));
    run := run + [s];
    var s2 := SetChild(s1.(queue := multiset{}), 1, NoteExit(s1.children[1], false));
    assert s == Cascade(s2, 1, false, false);
    ExitedAlone(s2);
    CascadeNewer(s2, 1, false, false, 0);
    CascadeNewer(s2, 1, false, false, 1);
  }

  lemma ExitedAlone(s: State)
    requires |s.children| == 2 && s.children[1].state.Removed? && s.children[0].state.Running?
    requires s.children[0].policy.Permanent? && (s.strategy.OneForAll? || s.strategy.RestForOne?)
    ensures Cascade(s, 1, false, false).children[1].state.Removed?
    ensures Cascade(s, 1, false, false).children[0].state.Running?
  {
    if s.strategy.OneForAll? {
      var t := TerminateSet(s, Others(1), 2);
      assert t == TerminateSet(s, Others(1), 1) == Terminate(s, 0);
      assert RespawnSet(t, 1, false, false, 0, 1) == RespawnOne(t, 1, false, false, 0);
      assert RespawnSet(t, 1, false, false, 0, 2) == RespawnSet(t, 1, false, false, 0, 1);
    } else {
      assert TerminateSet(s, Later(1), 1) == s;
      assert RespawnSet(s, 1, false, false, 1, 2) == s;
    }
  }

  /** Under OneForAll and under RestForOne there is a run in which a removed child is running again: the Transient
      child exits cleanly and is removed, then the Permanent one exits cleanly. */
  lemma RemovedIsRevived(strategy: Strategy) returns (run: seq<State>, i: nat)
    requires strategy.OneForAll? || strategy.RestForOne?
    ensures IsRun(run) && i < |run| && |run[i].children| == |run[|run| - 1].children| == 2
    ensures run[i].strategy == strategy && run[i].children[1].state.Removed?
    ensures run[|run| - 1].children[1].state.Running?
  {
    var before, s := TransientGone(strategy);
    i := |before| - 1;
    RunKeeps(before, i);
    var s1, s2 := PermanentExits(s);
    var g := s.children[0].generation;
    Extend(before, s1, TaskEnds(0, g, ExitOk));
    Extend(before + [s1], s2, Deliver(ChildExited(0, g, ExitOk)));
    run := before + [s1] + [s2];
  }

  lemma PermanentExits(s: State) returns (s1: State, s2: State)
    requires |s.children| == 2 && (s.strategy.OneForAll? || s.strategy.RestForOne?)
    requires Inv(s) && !s.shuttingDown && s.status.Looping? && s.queue == multiset{}
    requires s.children[0].state.Running? && !s.children[1].policy.Temporary?
    ensures var g := s.children[0].generation;
      Takes(s, s1, TaskEnds(0, g, ExitOk)) && Takes(s1, s2, Deliver(ChildExited(0, g, ExitOk)))
    ensures |s2.children| == 2 && s2.children[1].state.Running?
  {
    assert ChildInv(s, 0);
    var g := s.children[0].generation;
    assert ExitsQueued(s, 0, g) == 0;
    var e := ChildExited(0, g, ExitOk);
    s1 := s.(tasks := s.tasks - {(0, g)}, queue := s.queue + multiset{e});
    s2 := Handle(s1.(queue := s1.queue - multiset{e}), e);
    assert !s1.children[0].state.Removed?;
    HandleShape(s1.(queue := s1.queue - multiset{e}), e);
    ExitStates(s1, s2, e, 1);
  }
}
