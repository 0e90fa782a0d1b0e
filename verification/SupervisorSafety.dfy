/** What every step of the supervisor keeps, and what follows for every run. */
module SupervisorSafety {
  import opened Collections
  import opened SupervisorModel

  // ----- the wakeups a child can still produce

  function ExitsQueued(s: State, i: nat, g: nat): nat {
    s.queue[ChildExited(i, g, ExitOk)] + s.queue[ChildExited(i, g, ExitErr)]
    + s.queue[ChildExited(i, g, ExitPanic)] + s.queue[ChildExited(i, g, ExitCancelled)]
  }

  /** A task of generation `g` that has not finished, or its exit report. */
  function TaskTokens(s: State, i: nat, g: nat): nat {
    (if (i, g) in s.tasks then 1 else 0) + ExitsQueued(s, i, g)
  }

  /** A pending timer of generation `g`, or its report. */
  function TimerTokens(s: State, i: nat, g: nat): nat {
    (if (i, g) in s.timers then 1 else 0) + s.queue[RestartReady(i, g)]
  }

  /** Nothing of child `i` carries generation `g`. */
  predicate NoTokens(s: State, i: nat, g: nat) {
    TaskTokens(s, i, g) == 0 && TimerTokens(s, i, g) == 0
  }

  /** Nothing carries a generation that was not handed out yet. */
  ghost predicate Fresh(s: State, i: nat, from: nat) {
    forall g: nat :: g >= from ==> NoTokens(s, i, g)
  }

  /** Every unfinished task of an older generation has been told to stop. */
  ghost predicate OldTasksAborted(s: State, i: nat, upTo: nat) {
    forall g: nat :: g < upTo && (i, g) in s.tasks ==> s.tasks[(i, g)]
  }

  /** The child holds no handle and nothing current can wake it. */
  ghost predicate Quiet(s: State, i: nat) {
    && i < |s.children| && s.children[i].abort.None?
    && Fresh(s, i, s.children[i].generation) && OldTasksAborted(s, i, s.children[i].generation)
  }

  /** The invariant of one child between events, before shutdown. */
  ghost predicate ChildInv(s: State, i: nat) {
    && i < |s.children|
    && var c := s.children[i];
    var g := c.generation;
    && Fresh(s, i, g + 1) && OldTasksAborted(s, i, g)
    && match c.state {
         case Running =>
           && c.abort == Some(g) && TaskTokens(s, i, g) == 1 && TimerTokens(s, i, g) == 0
           && ((i, g) in s.tasks ==> !s.tasks[(i, g)])
         case BackingOff => c.abort.None? && TaskTokens(s, i, g) == 0 && TimerTokens(s, i, g) == 1
         case Removed => c.abort.None? && NoTokens(s, i, g)
         case Idle => false
       }
  }

  /** Two states that look the same from child `j`. */
  ghost predicate SameFor(s: State, s': State, j: nat) {
    && j < |s.children| == |s'.children| && s'.children[j] == s.children[j]
    && (forall g: nat :: (j, g) in s.tasks <==> (j, g) in s'.tasks)
    && (forall g: nat :: (j, g) in s.tasks ==> s'.tasks[(j, g)] == s.tasks[(j, g)])
    && (forall g: nat :: (j, g) in s.timers <==> (j, g) in s'.timers)
    && (forall g: nat :: ExitsQueued(s', j, g) == ExitsQueued(s, j, g))
    && (forall g: nat :: s'.queue[RestartReady(j, g)] == s.queue[RestartReady(j, g)])
  }

  lemma SameForKeeps(s: State, s': State, j: nat)
    requires SameFor(s, s', j)
    ensures ChildInv(s, j) ==> ChildInv(s', j)
    ensures Quiet(s, j) ==> Quiet(s', j)
  {
    forall g: nat ensures TaskTokens(s', j, g) == TaskTokens(s, j, g) && TimerTokens(s', j, g) == TimerTokens(s, j, g) {
      assert (j, g) in s.tasks <==> (j, g) in s'.tasks;
      assert (j, g) in s.timers <==> (j, g) in s'.timers;
    }
    assert forall g: nat :: NoTokens(s', j, g) <==> NoTokens(s, j, g);
  }

  // ----- primitive actions

  lemma SpawnRuns(s: State, i: nat)
    requires Quiet(s, i)
    ensures ChildInv(SpawnChild(s, i), i)
    ensures forall j: nat :: j != i && j < |s.children| ==> SameFor(s, SpawnChild(s, i), j)
  {
    var s' := SpawnChild(s, i);
    var g := s'.children[i].generation;
    assert NoTokens(s, i, g);
    forall g': nat | g' >= g + 1 ensures NoTokens(s', i, g') {
      assert NoTokens(s, i, g');
    }
    assert NoTokens(s, i, g - 1);
  }

  lemma ScheduleBacksOff(s: State, i: nat)
    requires Quiet(s, i)
    ensures ChildInv(ScheduleRestart(s, i), i)
    ensures forall j: nat :: j != i && j < |s.children| ==> SameFor(s, ScheduleRestart(s, i), j)
  {
    var s' := ScheduleRestart(s, i);
    var g := s'.children[i].generation;
    assert NoTokens(s, i, g) && NoTokens(s, i, g - 1);
    forall g': nat | g' >= g + 1 ensures NoTokens(s', i, g') {
      assert NoTokens(s, i, g');
    }
  }

  lemma TerminateQuiets(s: State, i: nat)
    requires ChildInv(s, i)
    ensures Quiet(Terminate(s, i), i)
    ensures forall j: nat :: j != i && j < |s.children| ==> SameFor(s, Terminate(s, i), j)
  {
    var s' := Terminate(s, i);
    var g := s.children[i].generation;
    forall g': nat | g' >= g + 1 ensures NoTokens(s', i, g') {
      assert NoTokens(s, i, g');
    }
    assert TaskTokens(s, i, g) == 0 ==> (i, g) !in s.tasks;
  }

  lemma RemoveQuiet(s: State, i: nat)
    requires Quiet(s, i)
    ensures ChildInv(MarkRemoved(s, i), i)
    ensures forall j: nat :: j != i && j < |s.children| ==> SameFor(s, MarkRemoved(s, i), j)
  {
    var s' := MarkRemoved(s, i);
    forall g: nat | g >= s.children[i].generation ensures NoTokens(s', i, g) {
      assert NoTokens(s, i, g);
    }
  }

  // ----- cascades

  lemma SameForTransitive(a: State, b: State, c: State, j: nat)
    requires SameFor(a, b, j) && SameFor(b, c, j)
    ensures SameFor(a, c, j)
  {
    forall g: nat ensures (j, g) in a.tasks <==> (j, g) in c.tasks {
      assert (j, g) in a.tasks <==> (j, g) in b.tasks;
    }
    forall g: nat ensures (j, g) in a.timers <==> (j, g) in c.timers {
      assert (j, g) in a.timers <==> (j, g) in b.timers;
    }
  }

  /** Halfway through a cascade: the exited child and the terminated ones are quiet, the rest are intact. */
  ghost predicate Halfway(s: State, scope: Scope, n: nat, j: nat) {
    if j == scope.failed || (j < n && InScope(scope, j)) then Quiet(s, j) else ChildInv(s, j)
  }

  lemma {:induction false} TerminateSetQuiets(s: State, s': State, scope: Scope, n: nat)
    requires n <= |s.children| && scope.failed < |s.children| && s' == TerminateSet(s, scope, n)
    requires forall j: nat :: j < |s.children| ==> Halfway(s, scope, 0, j)
    ensures forall j: nat :: j < |s.children| ==> Halfway(s', scope, n, j)
    ensures forall j: nat :: j < |s.children| && !InScope(scope, j) ==> SameFor(s, s', j)
    decreases n
  {
    if n > 0 {
      var m, k := TerminateSet(s, scope, n - 1), n - 1;
      TerminateSetQuiets(s, m, scope, k);
      assert Halfway(m, scope, k, k);
      if InScope(scope, k) {
        TerminateQuiets(m, k);
      }
      forall j: nat | j < |s.children| ensures Halfway(s', scope, n, j) {
        TerminateStep(m, s', scope, k, j);
      }
      forall j: nat | j < |s.children| && !InScope(scope, j) ensures SameFor(s, s', j) {
        if InScope(scope, k) {
          SameForTransitive(s, m, s', j);
        }
      }
    }
  }

  lemma TerminateStep(m: State, s': State, scope: Scope, k: nat, j: nat)
    requires k < |m.children| && j < |m.children| && Halfway(m, scope, k, j)
    requires if InScope(scope, k) then Quiet(s', k) && (j != k ==> SameFor(m, s', j)) else s' == m
    ensures Halfway(s', scope, k + 1, j)
  {
    if j != k && InScope(scope, k) {
      SameForKeeps(m, s', j);
    }
  }

  /** A cascade that has restarted the children in scope below `n`. */
  ghost predicate Restored(s: State, scope: Scope, n: nat, j: nat) {
    if n <= j && (j == scope.failed || InScope(scope, j)) then Quiet(s, j) else ChildInv(s, j)
  }

  lemma RespawnOneRestores(s: State, s': State, failed: nat, restart: bool, abnormal: bool, i: nat)
    requires Quiet(s, i) && s' == RespawnOne(s, failed, restart, abnormal, i)
    requires i == failed && !restart ==> s.children[i].state.Removed?
    ensures ChildInv(s', i) && |s'.children| == |s.children|
    ensures forall j: nat :: j != i && j < |s.children| ==> SameFor(s, s', j)
  {
    SpawnRuns(s, i);
    ScheduleBacksOff(s, i);
    RemoveQuiet(s, i);
    if i == failed && !restart {
      assert MarkRemoved(s, i) == s;
    }
  }

  function ScopeStart(scope: Scope): nat {
    match scope
    case Others(_) => 0
    case Later(failed) => failed
  }

  lemma {:induction false} RespawnSetRestores(s: State, s': State, scope: Scope, restart: bool, abnormal: bool, n: nat)
    requires ScopeStart(scope) <= n <= |s.children| && scope.failed < |s.children|
    requires s' == RespawnSet(s, scope.failed, restart, abnormal, ScopeStart(scope), n)
    requires forall j: nat :: j < |s.children| ==> Restored(s, scope, 0, j)
    requires !restart ==> s.children[scope.failed].state.Removed?
    ensures forall j: nat :: j < |s.children| ==> Restored(s', scope, n, j)
    ensures forall j: nat :: j < |s.children| && (j < ScopeStart(scope) || n <= j) ==> SameFor(s, s', j)
    decreases n
  {
    var lo := ScopeStart(scope);
    if n == lo {
      forall j: nat | j < |s.children| ensures Restored(s', scope, n, j) {
        assert Restored(s, scope, 0, j);
      }
    } else {
      var m, k := RespawnSet(s, scope.failed, restart, abnormal, lo, n - 1), n - 1;
      RespawnSetRestores(s, m, scope, restart, abnormal, k);
      assert Restored(m, scope, k, k) && SameFor(s, m, k);
      RespawnOneRestores(m, s', scope.failed, restart, abnormal, k);
      forall j: nat | j < |s.children| ensures Restored(s', scope, n, j) {
        assert Restored(m, scope, k, j);
        if j != k {
          SameForKeeps(m, s', j);
        }
      }
      forall j: nat | j < |s.children| && (j < lo || n <= j) ensures SameFor(s, s', j) {
        SameForTransitive(s, m, s', j);
      }
    }
  }

  /** The children a cascade may touch when child `failed` exits. */
  predicate Affected(strategy: Strategy, failed: nat, j: nat) {
    match strategy
    case OneForAll => true
    case RestForOne => failed <= j
    case _ => j == failed
  }

  lemma ScopedCascade(s: State, s': State, scope: Scope, restart: bool, abnormal: bool)
    requires scope.failed < |s.children| && Quiet(s, scope.failed)
    requires s' == RespawnSet(TerminateSet(s, scope, |s.children|), scope.failed, restart, abnormal,
                              ScopeStart(scope), |s.children|)
    requires !restart ==> s.children[scope.failed].state.Removed?
    requires forall j: nat :: j < |s.children| && j != scope.failed ==> ChildInv(s, j)
    ensures forall j: nat :: j < |s.children| ==> ChildInv(s', j)
    ensures forall j: nat :: j < |s.children| && j < ScopeStart(scope) ==> SameFor(s, s', j)
  {
    var n := |s.children|;
    var m := TerminateSet(s, scope, n);
    TerminateSetQuiets(s, m, scope, n);
    forall j: nat | j < n ensures Restored(m, scope, 0, j) {
      assert Halfway(m, scope, n, j);
    }
    assert SameFor(s, m, scope.failed);
    RespawnSetRestores(m, s', scope, restart, abnormal, n);
    forall j: nat | j < n ensures ChildInv(s', j) {
      assert Restored(s', scope, n, j);
    }
    forall j: nat | j < n && j < ScopeStart(scope) ensures SameFor(s, s', j) {
      assert !InScope(scope, j);
      SameForTransitive(s, m, s', j);
    }
  }

  /** A cascade restores the invariant of every child and leaves unaffected children exactly as they were. */
  lemma CascadeRestores(s: State, s': State, failed: nat, restart: bool, abnormal: bool)
    requires failed < |s.children| && Quiet(s, failed) && s' == Cascade(s, failed, restart, abnormal)
    requires !restart ==> s.children[failed].state.Removed?
    requires forall j: nat :: j < |s.children| && j != failed ==> ChildInv(s, j)
    ensures |s'.children| == |s.children|
    ensures forall j: nat :: j < |s.children| ==> ChildInv(s', j)
    ensures forall j: nat :: j < |s.children| && !Affected(s.strategy, failed, j) ==> SameFor(s, s', j)
  {
    match s.strategy
    case OneForAll => ScopedCascade(s, s', Others(failed), restart, abnormal);
    case RestForOne => ScopedCascade(s, s', Later(failed), restart, abnormal);
    case OneForOne => OneRestores(s, s', failed, restart, abnormal);
    case SimpleOneForOne(_) => OneRestores(s, s', failed, restart, abnormal);
  }

  lemma OneRestores(s: State, s': State, failed: nat, restart: bool, abnormal: bool)
    requires failed < |s.children| && Quiet(s, failed) && s' == RespawnOne(s, failed, restart, abnormal, failed)
    requires !restart ==> s.children[failed].state.Removed?
    requires forall j: nat :: j < |s.children| && j != failed ==> ChildInv(s, j)
    ensures |s'.children| == |s.children|
    ensures forall j: nat :: j < |s.children| ==> ChildInv(s', j)
    ensures forall j: nat :: j < |s.children| && j != failed ==> SameFor(s, s', j)
  {
    RespawnOneRestores(s, s', failed, restart, abnormal, failed);
    forall j: nat | j < |s.children| ensures ChildInv(s', j) {
      if j != failed {
        SameForKeeps(s, s', j);
      }
    }
  }

  // ----- shutdown

  /** A child after the shutdown request: not alive, no handle, nothing left running unasked. */
  ghost predicate Stopped(s: State, i: nat) {
    && i < |s.children| && s.children[i].abort.None? && !Alive(s.children[i])
    && forall g: nat :: (i, g) in s.tasks ==> s.tasks[(i, g)]
  }

  lemma StopChildStops(s: State, i: nat)
    requires ChildInv(s, i)
    ensures Stopped(StopChild(s, i), i)
    ensures forall j: nat :: j != i && j < |s.children| ==> SameFor(s, StopChild(s, i), j)
  {
    var s' := StopChild(s, i);
    var g := s.children[i].generation;
    assert forall g': nat :: g' > g ==> NoTokens(s, i, g');
    assert forall g': nat :: NoTokens(s, i, g') ==> (i, g') !in s.tasks;
  }

  lemma {:induction false} StopAllStops(s: State, s': State, n: nat)
    requires n <= |s.children| && s' == StopAll(s, n)
    requires forall j: nat :: j < |s.children| ==> ChildInv(s, j)
    ensures forall j: nat :: j < n ==> Stopped(s', j)
    ensures forall j: nat :: n <= j < |s.children| ==> ChildInv(s', j)
    ensures s'.shuttingDown == s.shuttingDown && s'.status == s.status
    decreases n
  {
    if n > 0 {
      var m, k := StopAll(s, n - 1), n - 1;
      StopAllStops(s, m, k);
      StopChildStops(m, k);
      forall j: nat | j < k ensures Stopped(s', j) {
        assert Stopped(m, j) && SameFor(m, s', j);
      }
      forall j: nat | n <= j < |s.children| ensures ChildInv(s', j) {
        SameForKeeps(m, s', j);
      }
    }
  }

  lemma {:induction false} NoneAlive(cs: seq<Child>)
    requires forall i :: 0 <= i < |cs| ==> !Alive(cs[i])
    ensures AliveCount(cs) == 0
  {
    if cs != [] {
      NoneAlive(cs[..|cs| - 1]);
    }
  }

  // ----- the invariant of the whole machine

  ghost predicate Inv(s: State) {
    && (!s.shuttingDown ==> forall i: nat :: i < |s.children| ==> ChildInv(s, i))
    && (s.shuttingDown ==> forall i: nat :: i < |s.children| ==> Stopped(s, i))
    && (s.status.Returned? ==>
          s.status.reason == if s.shuttingDown then ShutdownDone else AllChildrenStopped)
    && (s.status.Returned? && !s.shuttingDown ==> AllTerminal(s))
  }

  lemma ShutdownReturnsAtOnce(s: State)
    requires Inv(s) && s.shuttingDown
    ensures LoopTop(s) == Some(ShutdownDone)
  {
    forall i | 0 <= i < |s.children| ensures !Alive(s.children[i]) {
      assert Stopped(s, i);
    }
    NoneAlive(s.children);
  }

  lemma TaskEndsKeeps(s: State, s': State, id: nat, g: nat, exit: Exit, i: nat)
    requires Takes(s, s', TaskEnds(id, g, exit)) && i < |s.children|
    ensures ChildInv(s, i) ==> ChildInv(s', i)
    ensures Stopped(s, i) ==> Stopped(s', i)
  {
    forall g': nat
      ensures TaskTokens(s', i, g') == TaskTokens(s, i, g') && TimerTokens(s', i, g') == TimerTokens(s, i, g')
    {
      assert (i, g') in s'.tasks <==> (i, g') in s.tasks && (i, g') != (id, g);
    }
    assert forall g': nat :: NoTokens(s', i, g') <==> NoTokens(s, i, g');
  }

  lemma TimerFiresKeeps(s: State, s': State, id: nat, g: nat, i: nat)
    requires Takes(s, s', TimerFires(id, g)) && i < |s.children|
    ensures ChildInv(s, i) ==> ChildInv(s', i)
    ensures Stopped(s, i) ==> Stopped(s', i)
  {
    forall g': nat
      ensures TaskTokens(s', i, g') == TaskTokens(s, i, g') && TimerTokens(s', i, g') == TimerTokens(s, i, g')
    {
      assert (i, g') in s'.timers <==> (i, g') in s.timers && (i, g') != (id, g);
    }
    assert forall g': nat :: NoTokens(s', i, g') <==> NoTokens(s, i, g');
  }

  /** Taking an event off the channel: a child other than its addressee does not notice. */
  lemma DequeueOther(s: State, e: Event, j: nat)
    requires e in s.queue && j < |s.children| && (e.Shutdown? || e.id != j)
    ensures SameFor(s, s.(queue := s.queue - multiset{e}), j)
  {
  }

  /** ... and neither does its addressee when the event is outdated. */
  lemma DequeueStale(s: State, e: Event)
    requires e in s.queue && !e.Shutdown? && e.id < |s.children| && ChildInv(s, e.id)
    requires e.generation != s.children[e.id].generation
    ensures ChildInv(s.(queue := s.queue - multiset{e}), e.id)
  {
    var s', i := s.(queue := s.queue - multiset{e}), e.id;
    forall g: nat
      ensures g != e.generation ==>
        TaskTokens(s', i, g) == TaskTokens(s, i, g) && TimerTokens(s', i, g) == TimerTokens(s, i, g)
    {
    }
    forall g: nat | g >= s.children[i].generation + 1 ensures NoTokens(s', i, g) {
      assert NoTokens(s, i, g);
    }
  }

  lemma QueuedExit(s: State, e: Event)
    requires e.ChildExited? && e in s.queue
    ensures ExitsQueued(s, e.id, e.generation) >= 1
    ensures ExitsQueued(s.(queue := s.queue - multiset{e}), e.id, e.generation) ==
            ExitsQueued(s, e.id, e.generation) - 1
  {
    match e.exit
    case ExitOk => assert e == ChildExited(e.id, e.generation, ExitOk);
    case ExitErr => assert e == ChildExited(e.id, e.generation, ExitErr);
    case ExitPanic => assert e == ChildExited(e.id, e.generation, ExitPanic);
    case ExitCancelled => assert e == ChildExited(e.id, e.generation, ExitCancelled);
  }

  /** An event of the current generation finds its child in the state that started it, and uses up the
      child's only wakeup. */
  lemma DequeueCurrent(s: State, e: Event)
    requires e in s.queue && !e.Shutdown? && e.id < |s.children| && ChildInv(s, e.id)
    requires e.generation == s.children[e.id].generation
    ensures e.ChildExited? ==> s.children[e.id].state.Running?
    ensures e.RestartReady? ==> s.children[e.id].state.BackingOff?
    ensures var c := s.children[e.id].(abort := None);
            Quiet(SetChild(s.(queue := s.queue - multiset{e}), e.id, c), e.id)
  {
    var i := e.id;
    var s' := SetChild(s.(queue := s.queue - multiset{e}), i, s.children[i].(abort := None));
    if e.ChildExited? {
      QueuedExit(s, e);
    }
    forall g: nat | g >= s.children[i].generation ensures NoTokens(s', i, g) {
      if g > s.children[i].generation {
        assert NoTokens(s, i, g);
      }
    }
  }
}
