/** Which exits restart a child, how, and who is restarted along with it; told by policy and kind of exit. */
module SupervisorRestarts {
  import opened Bytes
  import opened Collections
  import opened SupervisorModel
  import opened SupervisorSafety
  import opened SupervisorRuns

  // ----- what can become of a child

  /** Child `i` was started once more: it runs as a new generation whose task nobody asked to stop. */
  ghost predicate StartedAgain(s: State, s': State, i: nat) {
    && i < |s.children| == |s'.children|
    && var c, c' := s.children[i], s'.children[i];
    && c'.state.Running? && c'.spawns == c.spawns + 1 && c'.policy == c.policy && c.generation < c'.generation
    && c'.abort == Some(c'.generation) && (i, c'.generation) in s'.tasks && !s'.tasks[(i, c'.generation)]
  }

  /** Child `i` waits for a timer of a new generation. */
  ghost predicate BacksOff(s: State, s': State, i: nat) {
    && i < |s.children| == |s'.children|
    && var c, c' := s.children[i], s'.children[i];
    && c'.state.BackingOff? && c'.spawns == c.spawns && c'.policy == c.policy && c'.generation == c.generation + 1
    && c'.abort.None? && (i, c'.generation) in s'.timers
  }

  ghost predicate TakenOut(s: State, s': State, i: nat) {
    && i < |s.children| == |s'.children|
    && s'.children[i].state.Removed? && s'.children[i].spawns == s.children[i].spawns
    && s'.children[i].policy == s.children[i].policy && s'.children[i].abort.None?
  }

  // ----- the sweeps, child by child

  lemma {:induction false} SweepSpares(s: State, scope: Scope, n: nat, j: nat)
    requires n <= |s.children| && j < |s.children| && !InScope(scope, j)
    ensures TerminateSet(s, scope, n).children[j] == s.children[j]
  {
    if n > 0 {
      SweepSpares(s, scope, n - 1, j);
    }
  }

  lemma {:induction false} SweepStops(s: State, scope: Scope, n: nat, j: nat)
    requires n <= |s.children| && j < n && InScope(scope, j)
    ensures var c := s.children[j];
      TerminateSet(s, scope, n).children[j] == c.(generation := c.generation + 1, abort := None, state := Idle)
  {
    if j < n - 1 {
      SweepStops(s, scope, n - 1, j);
    } else {
      SweepUntouched(s, scope, n - 1, j);
    }
  }

  lemma {:induction false} SweepUntouched(s: State, scope: Scope, n: nat, j: nat)
    requires n <= j < |s.children|
    ensures TerminateSet(s, scope, n).children[j] == s.children[j]
  {
    if n > 0 {
      SweepUntouched(s, scope, n - 1, j);
    }
  }

  /** In `s'` child `j` went from `c` to `c'`, and the task or timer of a new generation is there. */
  ghost predicate Respawned(c: Child, c': Child, s': State, j: nat) {
    && j < |s'.children| && s'.children[j] == c'
    && (c'.spawns > c.spawns ==> (j, c'.generation) in s'.tasks && !s'.tasks[(j, c'.generation)])
    && (c'.state.BackingOff? && c.generation < c'.generation ==> (j, c'.generation) in s'.timers)
  }

  lemma {:induction false} RespawnSpares(s: State, failed: nat, restart: bool, abnormal: bool, lo: nat, n: nat, j: nat)
    requires lo <= n <= |s.children| && j < |s.children| && !(lo <= j < n)
    ensures RespawnSet(s, failed, restart, abnormal, lo, n).children[j] == s.children[j]
    decreases n
  {
    if lo < n {
      RespawnSpares(s, failed, restart, abnormal, lo, n - 1, j);
    }
  }

  lemma RespawnsHere(m: State, failed: nat, restart: bool, abnormal: bool, j: nat)
    requires j < |m.children|
    ensures var r := RespawnOne(m, failed, restart, abnormal, j); Respawned(m.children[j], r.children[j], r, j)
  {
  }

  lemma RespawnsThere(c: Child, c': Child, m: State, failed: nat, restart: bool, abnormal: bool, i: nat, j: nat)
    requires i < |m.children| && i != j && Respawned(c, c', m, j)
    ensures Respawned(c, c', RespawnOne(m, failed, restart, abnormal, i), j)
  {
  }

  lemma {:induction false} RespawnLasts(s: State, failed: nat, restart: bool, abnormal: bool, lo: nat, n: nat, j: nat,
                                        c: Child, c': Child)
    requires lo <= j < n <= |s.children|
    requires Respawned(c, c', RespawnSet(s, failed, restart, abnormal, lo, j + 1), j)
    ensures Respawned(c, c', RespawnSet(s, failed, restart, abnormal, lo, n), j)
    decreases n
  {
    if j < n - 1 {
      RespawnLasts(s, failed, restart, abnormal, lo, n - 1, j, c, c');
      RespawnsThere(c, c', RespawnSet(s, failed, restart, abnormal, lo, n - 1), failed, restart, abnormal, n - 1, j);
    }
  }

  /** The respawn sweep does to each of its children what one respawn does. */
  lemma SweepRespawns(s: State, failed: nat, restart: bool, abnormal: bool, lo: nat, n: nat, j: nat)
    requires lo <= j < n <= |s.children|
    ensures var c' := RespawnOne(s, failed, restart, abnormal, j).children[j];
      Respawned(s.children[j], c', RespawnSet(s, failed, restart, abnormal, lo, n), j)
  {
    var m := RespawnSet(s, failed, restart, abnormal, lo, j);
    var c' := RespawnOne(s, failed, restart, abnormal, j).children[j];
    RespawnSpares(s, failed, restart, abnormal, lo, j, j);
    RespawnsHere(m, failed, restart, abnormal, j);
    assert RespawnOne(m, failed, restart, abnormal, j).children[j] == c';
    RespawnLasts(s, failed, restart, abnormal, lo, n, j, s.children[j], c');
  }

  // ----- a cascade, child by child

  /** The strategy restarts child `j` when child `failed` exits. */
  predicate Reaches(strategy: Strategy, failed: nat, j: nat) {
    match strategy
    case OneForOne => false
    case SimpleOneForOne(_) => false
    case OneForAll => j != failed
    case RestForOne => failed < j
  }

  lemma CascadeFailed(s: State, failed: nat, restart: bool, abnormal: bool)
    requires failed < |s.children|
    ensures var s' := Cascade(s, failed, restart, abnormal);
      && |s'.children| == |s.children|
      && (restart && !abnormal ==> StartedAgain(s, s', failed))
      && (restart && abnormal && s.children[failed].abort.None? ==> BacksOff(s, s', failed))
      && (!restart ==> s'.children[failed] == s.children[failed])
  {
    var n := |s.children|;
    match s.strategy
    case OneForAll =>
      var m := TerminateSet(s, Others(failed), n);
      SweepSpares(s, Others(failed), n, failed);
      SweepRespawns(m, failed, restart, abnormal, 0, n, failed);
    case RestForOne =>
      var m := TerminateSet(s, Later(failed), n);
      SweepSpares(s, Later(failed), n, failed);
      SweepRespawns(m, failed, restart, abnormal, failed, n, failed);
    case _ =>
  }

  lemma CascadeReached(s: State, failed: nat, restart: bool, abnormal: bool, j: nat)
    requires failed < |s.children| && j < |s.children| && Reaches(s.strategy, failed, j)
    ensures var s' := Cascade(s, failed, restart, abnormal);
      if s.children[j].policy.Temporary? then TakenOut(s, s', j) else StartedAgain(s, s', j)
  {
    var n := |s.children|;
    match s.strategy
    case OneForAll =>
      var m := TerminateSet(s, Others(failed), n);
      SweepStops(s, Others(failed), n, j);
      SweepRespawns(m, failed, restart, abnormal, 0, n, j);
    case RestForOne =>
      var m := TerminateSet(s, Later(failed), n);
      SweepStops(s, Later(failed), n, j);
      SweepRespawns(m, failed, restart, abnormal, failed, n, j);
  }

  lemma CascadeSpared(s: State, failed: nat, restart: bool, abnormal: bool, j: nat)
    requires failed < |s.children| && j < |s.children| && j != failed && !Reaches(s.strategy, failed, j)
    ensures Cascade(s, failed, restart, abnormal).children[j] == s.children[j]
  {
    if s.strategy.RestForOne? {
      var n := |s.children|;
      SweepSpares(s, Later(failed), n, j);
      RespawnSpares(TerminateSet(s, Later(failed), n), failed, restart, abnormal, failed, n, j);
    }
  }

  // ----- what an exit leads to

  /** What becomes of a child that exits, by its policy and the kind of exit. */
  ghost predicate Decided(s: State, s': State, id: nat, exit: Exit)
    requires id < |s.children|
  {
    match (s.children[id].policy, exit)
    case (Permanent, ExitOk) => StartedAgain(s, s', id)
    case (Permanent, ExitCancelled) => StartedAgain(s, s', id)
    case (Permanent, ExitErr) => BacksOff(s, s', id)
    case (Permanent, ExitPanic) => BacksOff(s, s', id)
    case (Transient, ExitErr) => BacksOff(s, s', id)
    case (Transient, ExitPanic) => BacksOff(s, s', id)
    case (Transient, ExitOk) => TakenOut(s, s', id)
    case (Transient, ExitCancelled) => TakenOut(s, s', id)
    case (Temporary, _) => TakenOut(s, s', id)
  }

  /** Under every strategy: a child that exits is started again at once, backs off or is removed as its policy and the
      exit say; a child in the strategy's reach is started again, or removed if it is Temporary; and no other child
      changes. */
  lemma ExitDecides(s: State, s': State, id: nat, g: nat, exit: Exit, j: nat)
    requires Takes(s, s', Deliver(ChildExited(id, g, exit))) && !s.shuttingDown && j < |s.children|
    requires id < |s.children| && s.children[id].generation == g
    ensures |s'.children| == |s.children| && s'.shuttingDown == s.shuttingDown && s'.status == s.status
    ensures j == id ==> Decided(s, s', id, exit)
    ensures j != id && Reaches(s.strategy, id, j) ==>
      if s.children[j].policy.Temporary? then TakenOut(s, s', j) else StartedAgain(s, s', j)
    ensures j != id && !Reaches(s.strategy, id, j) ==> s'.children[j] == s.children[j]
  {
    var c, abnormal := s.children[id], Abnormal(exit);
    var restart := Restarts(c.policy, abnormal);
    var s2 := SetChild(s.(queue := s.queue - multiset{ChildExited(id, g, exit)}), id, NoteExit(c, abnormal));
    assert s' == Cascade(s2, id, restart, abnormal);
    if j == id {
      CascadeFailed(s2, id, restart, abnormal);
    } else if Reaches(s.strategy, id, j) {
      CascadeReached(s2, id, restart, abnormal, j);
    } else {
      CascadeSpared(s2, id, restart, abnormal, j);
    }
  }

  /** A backoff that has run its time starts the child: it runs as the next generation, and nothing else changes. */
  lemma ReadyStarts(s: State, s': State, id: nat, g: nat)
    requires Inv(s) && Takes(s, s', Deliver(RestartReady(id, g))) && !s.shuttingDown
    requires id < |s.children| && s.children[id].generation == g
    ensures s.children[id].state.BackingOff? && StartedAgain(s, s', id) && s'.children[id].generation == g + 1
    ensures s'.children == s.children[id := s'.children[id]] && s'.timers == s.timers
    ensures s'.shuttingDown == s.shuttingDown && s'.status == s.status
  {
    assert ChildInv(s, id);
    assert TimerTokens(s, id, g) > 0;
  }

  // ----- over runs

  /** Before shutdown a Permanent child is never given up. */
  ghost predicate NeverGivenUp(s: State) {
    !s.shuttingDown ==>
      forall c: nat :: c < |s.children| && s.children[c].policy.Permanent? ==> !s.children[c].state.Removed?
  }

  lemma DeliverNeverGivesUp(s: State, s': State, e: Event)
    requires Inv(s) && NeverGivenUp(s) && Takes(s, s', Deliver(e))
    ensures NeverGivenUp(s')
  {
    if s.shuttingDown {
      ShutdownReturnsAtOnce(s);
    } else if e.ChildExited? && e.id < |s.children| && s.children[e.id].generation == e.generation {
      forall c: nat | c < |s.children| && s'.children[c].policy.Permanent? ensures !s'.children[c].state.Removed? {
        ExitDecides(s, s', e.id, e.generation, e.exit, c);
      }
      ExitDecides(s, s', e.id, e.generation, e.exit, e.id);
    } else if e.RestartReady? && e.id < |s.children| && s.children[e.id].generation == e.generation {
      ReadyStarts(s, s', e.id, e.generation);
    }
  }

  lemma StepNeverGivesUp(s: State, s': State, step: Step)
    requires Inv(s) && NeverGivenUp(s) && Takes(s, s', step)
    ensures NeverGivenUp(s')
  {
    if step.Deliver? {
      DeliverNeverGivesUp(s, s', step.e);
    } else if step.DrainTimeout? {
      ShutdownReturnsAtOnce(s);
    }
  }

  lemma {:induction false} AllStart(s: State, n: nat)
    requires n <= |s.children| && Registered(s)
    ensures forall j: nat :: j < |s.children| ==> !SpawnAll(s, n).children[j].state.Removed?
  {
    if n > 0 {
      AllStart(s, n - 1);
    }
  }

  /** In every run, before shutdown no Permanent child is ever removed. */
  lemma {:induction false} PermanentNeverRemoved(run: seq<State>, i: nat)
    requires IsRun(run) && i < |run|
    ensures NeverGivenUp(run[i])
  {
    if i == 0 {
      var s :| Registered(s) && run[0] == SpawnAll(s, |s.children|);
      AllStart(s, |s.children|);
    } else {
      PermanentNeverRemoved(run, i - 1);
      RunKeeps(run, i - 1);
      assert StepAt(run, i - 1);
      var step :| Takes(run[i - 1], run[i], step);
      StepNeverGivesUp(run[i - 1], run[i], step);
    }
  }

  /** A supervisor with a Permanent child returns for a shutdown only. */
  lemma {:induction false} OnlyShutdownReturns(run: seq<State>, i: nat, c: nat)
    requires IsRun(run) && i < |run| && run[i].status.Returned? && c < |run[i].children|
    requires run[i].children[c].policy.Permanent?
    ensures run[i].shuttingDown && run[i].status.reason == ShutdownDone
  {
    ReturnLeavesNothing(run, i, c);
    PermanentNeverRemoved(run, i);
    RunKeeps(run, i);
    assert !run[i].shuttingDown ==> AllTerminal(run[i]);
  }

  // ----- shutdown, child by child

  /** What shutdown makes of a child: its handle is taken, a running child is idle, one that backs off is removed. */
  predicate Marked(c: Child, c': Child) {
    && c'.policy == c.policy && c'.generation == c.generation && c'.failures == c.failures && c'.spawns == c.spawns
    && c'.abort.None?
    && match c.state {
         case Running => c'.state.Idle?
         case BackingOff => c'.state.Removed?
         case Idle => c'.state.Idle?
         case Removed => c'.state.Removed?
       }
  }

  lemma {:induction false} StopAllMarks(s: State, n: nat, j: nat)
    requires n <= |s.children| && j < |s.children|
    ensures var s' := StopAll(s, n);
      if j < n then Marked(s.children[j], s'.children[j]) else s'.children[j] == s.children[j]
  {
    if n > 0 {
      StopAllMarks(s, n - 1, j);
    }
  }

  /** Task `(j, g)` is there, and told to stop or not. */
  ghost predicate Told(s: State, j: nat, g: nat, stop: bool) {
    (j, g) in s.tasks && s.tasks[(j, g)] == stop
  }

  lemma {:induction false} StopAllSpares(s: State, n: nat, j: nat, g: nat, stop: bool)
    requires n <= j < |s.children| && Told(s, j, g, stop)
    ensures Told(StopAll(s, n), j, g, stop)
  {
    if n > 0 {
      StopAllSpares(s, n - 1, j, g, stop);
      StopOneAborts(StopAll(s, n - 1), n - 1, j, g, stop);
    }
  }

  lemma {:induction false} StopAllAborts(s: State, n: nat, j: nat, g: nat, stop: bool)
    requires j < n <= |s.children| && Told(s, j, g, stop)
    ensures Told(StopAll(s, n), j, g, stop || s.children[j].abort == Some(g))
  {
    var stop' := stop || s.children[j].abort == Some(g);
    if j == n - 1 {
      StopAllSpares(s, j, j, g, stop);
      StopAllMarks(s, j, j);
      StopOneAborts(StopAll(s, j), j, j, g, stop);
    } else {
      StopAllAborts(s, n - 1, j, g, stop);
      StopOneAborts(StopAll(s, n - 1), n - 1, j, g, stop');
    }
  }

  lemma StopOneAborts(m: State, i: nat, j: nat, g: nat, stop: bool)
    requires i < |m.children| && j < |m.children| && Told(m, j, g, stop)
    ensures Told(StopChild(m, i), j, g, stop || (i == j && m.children[i].abort == Some(g)))
  {
  }

  /** A shutdown marks every child and tells exactly the tasks whose handles are held to stop. */
  lemma ShutdownMarks(s: State, s': State, j: nat, g: nat)
    requires Takes(s, s', Deliver(Shutdown)) && !s.shuttingDown && j < |s.children|
    ensures s'.shuttingDown && |s'.children| == |s.children| && Marked(s.children[j], s'.children[j])
    ensures (j, g) in s.tasks ==>
      (j, g) in s'.tasks && s'.tasks[(j, g)] == (s.tasks[(j, g)] || s.children[j].abort == Some(g))
  {
    var s1 := s.(queue := s.queue - multiset{Shutdown}, shuttingDown := true);
    StopAllMarks(s1, |s.children|, j);
    if (j, g) in s.tasks {
      StopAllAborts(s1, |s.children|, j, g, s.tasks[(j, g)]);
    }
  }

  /** Once shutting down, a current exit removes its child, an outdated one changes nothing, and no backoff restarts
      one. */
  lemma LateEvents(s: State, id: nat, g: nat, exit: Exit, j: nat)
    requires s.shuttingDown && j < |s.children|
    ensures var s' := HandleChildExited(s, id, g, exit);
      && s'.tasks == s.tasks && s'.timers == s.timers && |s'.children| == |s.children|
      && (j == id && s.children[id].generation == g ==>
            s'.children[j] == s.children[j].(abort := None, state := Removed))
      && (j != id || s.children[j].generation != g ==> s'.children[j] == s.children[j])
    ensures HandleRestartReady(s, id, g) == s && HandleShutdown(s) == s
  {
  }
}
