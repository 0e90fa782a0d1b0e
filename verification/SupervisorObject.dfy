/** The supervisor object: its handlers update the child table in place. */
module SupervisorObject {
  import opened Collections
  import opened SupervisorModel
  import opened SupervisorSafety
  import opened SupervisorRuns

  /** What a supervisor that returned leaves behind: no abort handle, and no task that was not told to stop. */
  ghost predicate HandlesTaken(s: State, c: nat) {
    c < |s.children| && s.children[c].abort.None? && forall g: nat :: (c, g) in s.tasks ==> s.tasks[(c, g)]
  }

  lemma DoneTakesHandles(s: State, c: nat)
    requires Inv(s) && LoopTop(s).Some? && c < |s.children|
    ensures HandlesTaken(s, c)
  {
    if s.shuttingDown {
      assert Stopped(s, c);
    } else {
      assert ChildInv(s, c);
      forall g: nat | (c, g) in s.tasks ensures s.tasks[(c, g)] {
        assert !NoTokens(s, c, g);
      }
    }
  }

  /** The alive count counts the children that run or back off. */
  lemma {:induction false} AliveCounts(cs: seq<Child>)
    ensures AliveCount(cs) == |set i | 0 <= i < |cs| && (cs[i].state.Running? || cs[i].state.BackingOff?)|
  {
    if cs != [] {
      var n := |cs| - 1;
      AliveCounts(cs[..n]);
      var all := set i | 0 <= i < |cs| && (cs[i].state.Running? || cs[i].state.BackingOff?);
      var before := set i | 0 <= i < |cs[..n]| && (cs[..n][i].state.Running? || cs[..n][i].state.BackingOff?);
      assert all == before + if cs[n].state.Running? || cs[n].state.BackingOff? then {n} else {};
    }
  }

  class Supervisor {
    const strategy: Strategy
    var children: seq<Child>
    var tasks: map<(nat, nat), bool>
    var timers: set<(nat, nat)>
    var queue: multiset<Event>
    var shuttingDown: bool
    var status: Status

    /** The object's state as a value of the state machine. */
    function View(): State
      reads this
    {
      State(strategy, children, tasks, timers, queue, shuttingDown, status)
    }

    constructor (strategy: Strategy)
      ensures View() == State(strategy, [], map[], {}, multiset{}, false, Looping)
    {
      this.strategy := strategy;
      children, tasks, timers, queue, shuttingDown, status := [], map[], {}, multiset{}, false, Looping;
    }

    /** Registration is refused only when a SimpleOneForOne supervisor is full. */
    method TryAddChild(policy: Policy) returns (id: Option<nat>)
      modifies this
      ensures id.None? <==> strategy.SimpleOneForOne? && strategy.maxChildren <= |old(children)|
      ensures id.None? ==> View() == old(View())
      ensures id.Some? ==> id.value == |old(children)|
      ensures id.Some? ==> View() == old(View()).(children := old(children) + [Child(policy, 0, None, Idle, 0, 0)])
    {
      if strategy.SimpleOneForOne? && strategy.maxChildren <= |children| {
        return None;
      }
      id := Some(|children|);
      children := children + [Child(policy, 0, None, Idle, 0, 0)];
    }

    method SpawnChild(i: nat)
      requires i < |children|
      modifies this
      ensures View() == SupervisorModel.SpawnChild(old(View()), i)
    {
      var c := children[i];
      var g := c.generation + 1;
      tasks := tasks[(i, g) := false];
      children := children[i := c.(generation := g, abort := Some(g), state := Running, spawns := c.spawns + 1)];
    }

    method ScheduleRestart(i: nat)
      requires i < |children|
      modifies this
      ensures View() == SupervisorModel.ScheduleRestart(old(View()), i)
    {
      var c := children[i];
      var g := c.generation + 1;
      children := children[i := c.(generation := g, state := BackingOff)];
      timers := timers + {(i, g)};
    }

    /** The initial start of every registered child: the first state of a run, with every child accounted for. */
    method StartAll()
      modifies this
      ensures View() == SpawnAll(old(View()), |old(children)|)
      ensures old(Registered(View())) ==> IsRun([View()]) && Inv(View())
    {
      for i := 0 to |children|
        invariant |children| == |old(children)| && View() == SpawnAll(old(View()), i)
      {
        SpawnChild(i);
      }
      if old(Registered(View())) {
        StartHolds(old(View()));
      }
    }

    /** Abort and idle every child in scope (`terminate_others` and `terminate_after`). */
    method TerminateInScope(scope: Scope)
      modifies this
      ensures View() == TerminateSet(old(View()), scope, |old(children)|)
    {
      for i := 0 to |children|
        invariant |children| == |old(children)| && View() == TerminateSet(old(View()), scope, i)
      {
        if InScope(scope, i) {
          var c := children[i];
          tasks := AbortTask(tasks, i, c.abort);
          children := children[i := c.(generation := c.generation + 1, abort := None, state := Idle)];
        }
      }
    }

    method RespawnChild(failed: nat, restart: bool, abnormal: bool, i: nat)
      requires i < |children|
      modifies this
      ensures View() == RespawnOne(old(View()), failed, restart, abnormal, i)
    {
      if i == failed {
        if restart {
          if abnormal {
            ScheduleRestart(i);
          } else {
            SpawnChild(i);
          }
        }
      } else if children[i].policy.Temporary? {
        children := children[i := children[i].(state := Removed)];
      } else {
        SpawnChild(i);
      }
    }

    method RespawnFrom(failed: nat, restart: bool, abnormal: bool, lo: nat)
      requires lo <= |children|
      modifies this
      ensures View() == RespawnSet(old(View()), failed, restart, abnormal, lo, |old(children)|)
    {
      for i := lo to |children|
        invariant |children| == |old(children)| && View() == RespawnSet(old(View()), failed, restart, abnormal, lo, i)
      {
        RespawnChild(failed, restart, abnormal, i);
      }
    }

    method RunCascade(failed: nat, restart: bool, abnormal: bool)
      requires failed < |children|
      modifies this
      ensures View() == Cascade(old(View()), failed, restart, abnormal)
    {
      match strategy {
        case OneForOne => RespawnChild(failed, restart, abnormal, failed);
        case SimpleOneForOne(_) => RespawnChild(failed, restart, abnormal, failed);
        case OneForAll =>
          TerminateInScope(Others(failed));
          RespawnFrom(failed, restart, abnormal, 0);
        case RestForOne =>
          TerminateInScope(Later(failed));
          RespawnFrom(failed, restart, abnormal, failed);
      }
    }

    method HandleChildExited(id: nat, generation: nat, exit: Exit)
      modifies this
      ensures View() == SupervisorModel.HandleChildExited(old(View()), id, generation, exit)
    {
      if id >= |children| || children[id].generation != generation {
        return;
      }
      var c := children[id];
      if shuttingDown {
        children := children[id := c.(abort := None, state := Removed)];
        return;
      }
      var abnormal := Abnormal(exit);
      var restart := Restarts(c.policy, abnormal);
      c := c.(abort := None, state := Idle, failures := Tally(c.failures, abnormal));
      if !restart {
        c := c.(state := Removed);
      }
      children := children[id := c];
      RunCascade(id, restart, abnormal);
    }

    method HandleRestartReady(id: nat, generation: nat)
      modifies this
      ensures View() == SupervisorModel.HandleRestartReady(old(View()), id, generation)
    {
      if id < |children| && children[id].generation == generation && !shuttingDown && children[id].state.BackingOff? {
        SpawnChild(id);
      }
    }

    method HandleShutdownEvent()
      modifies this
      ensures View() == HandleShutdown(old(View()))
    {
      if shuttingDown {
        return;
      }
      shuttingDown := true;
      ghost var start := View();
      for i := 0 to |children|
        invariant |children| == |start.children| && View() == StopAll(start, i)
      {
        var c := children[i];
        tasks := AbortTask(tasks, i, c.abort);
        var state := match c.state { case Running => Idle case BackingOff => Removed case _ => c.state };
        children := children[i := c.(abort := None, state := state)];
      }
    }

    method CountAlive() returns (n: nat)
      ensures n == AliveCount(children)
      ensures n == |set i | 0 <= i < |children| && (children[i].state.Running? || children[i].state.BackingOff?)|
    {
      n := 0;
      for i := 0 to |children|
        invariant n == AliveCount(children[..i])
      {
        assert children[..i + 1][..i] == children[..i];
        if Alive(children[i]) {
          n := n + 1;
        }
      }
      assert children[..|children|] == children;
      AliveCounts(children);
    }

    method EveryChildRemoved() returns (all: bool)
      ensures all == AllTerminal(View())
      ensures all <==> forall i :: 0 <= i < |children| ==> children[i].state.Removed?
    {
      all := true;
      for i := 0 to |children|
        invariant all == forall j :: 0 <= j < i ==> children[j].state.Removed?
      {
        if !children[i].state.Removed? {
          all := false;
        }
      }
    }

    /** One turn of the run loop with the next event `e`: return if the loop is over, else handle the event. Each
        turn is a step of the state machine. The caller gets every child accounted for while the loop goes on, and
        all handles taken once it is over. */
    method Turn(e: Event) returns (done: Option<Reason>)
      requires status.Looping? && (LoopTop(View()).None? ==> e in queue)
      modifies this
      ensures done == LoopTop(old(View()))
      ensures Takes(old(View()), View(), if done.Some? then Return else Deliver(e))
      ensures done.Some? ==> View() == old(View()).(status := Returned(done.value))
      ensures done.None? ==> View() == Handle(old(View()).(queue := old(queue) - multiset{e}), e)
      ensures old(Inv(View())) ==> Inv(View())
      ensures old(Inv(View())) && done.None? ==> !old(shuttingDown)
      ensures old(Inv(View())) && done.None? && !shuttingDown ==>
        forall c: nat :: c < |children| ==> ChildInv(View(), c)
      ensures old(Inv(View())) && done.Some? ==> forall c: nat :: c < |children| ==> HandlesTaken(View(), c)
    {
      done := Dispatch(e);
      ghost var step := if done.Some? then Return else Deliver(e);
      if old(Inv(View())) {
        StepKeeps(old(View()), View(), step);
        if done.Some? {
          forall c: nat | c < |children| ensures HandlesTaken(View(), c) {
            DoneTakesHandles(old(View()), c);
          }
        } else if old(shuttingDown) {
          ShutdownReturnsAtOnce(old(View()));
        }
      }
    }

    method Dispatch(e: Event) returns (done: Option<Reason>)
      modifies this
      ensures done == LoopTop(old(View()))
      ensures done.Some? ==> View() == old(View()).(status := Returned(done.value))
      ensures done.None? ==> View() == Handle(old(View()).(queue := old(queue) - multiset{e}), e)
    {
      var all := EveryChildRemoved();
      var alive := CountAlive();
      if !shuttingDown && all {
        status := Returned(AllChildrenStopped);
        return Some(AllChildrenStopped);
      }
      if shuttingDown && alive == 0 {
        status := Returned(ShutdownDone);
        return Some(ShutdownDone);
      }
      queue := queue - multiset{e};
      match e {
        case Shutdown => HandleShutdownEvent();
        case ChildExited(id, generation, exit) => HandleChildExited(id, generation, exit);
        case RestartReady(id, generation) => HandleRestartReady(id, generation);
      }
      done := None;
    }
  }
}
