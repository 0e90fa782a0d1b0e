/** The supervisor as an event-driven state machine together with the tasks, timers and queued events
    it depends on. */
module SupervisorModel {
  import opened Bytes
  import opened Collections

  datatype Policy = Permanent | Transient | Temporary

  datatype Strategy = OneForOne | OneForAll | RestForOne | SimpleOneForOne(maxChildren: nat)

  datatype Exit = ExitOk | ExitErr | ExitPanic | ExitCancelled

  predicate Abnormal(exit: Exit) {
    exit.ExitErr? || exit.ExitPanic?
  }

  datatype ChildState = Idle | Running | BackingOff | Removed

  /** A child is identified by its registration index. `abort` names the generation of the task whose handle
      is held; `spawns` counts the calls of the child's factory. */
  datatype Child = Child(policy: Policy, generation: nat, abort: Option<nat>, state: ChildState,
                         failures: nat, spawns: nat)

  datatype Event =
    | ChildExited(id: nat, generation: nat, exit: Exit)
    | RestartReady(id: nat, generation: nat)
    | Shutdown

  datatype Reason = AllChildrenStopped | ShutdownDone | ShutdownTimeout(remaining: nat)

  datatype Status = Looping | Returned(reason: Reason)

  /** `tasks` maps each task that has not finished to whether its abort was requested. The event channel is a
      multiset: the model delivers queued events in any order. */
  datatype State = State(strategy: Strategy, children: seq<Child>, tasks: map<(nat, nat), bool>,
                         timers: set<(nat, nat)>, queue: multiset<Event>, shuttingDown: bool, status: Status)

  /** Handlers change children, tasks and timers; what else changes is stated where it does. */
  predicate SameFrame(s: State, s': State) {
    && |s'.children| == |s.children| && s'.strategy == s.strategy
    && s'.queue == s.queue && s'.status == s.status && s'.shuttingDown == s.shuttingDown
  }

  // ----- the supervisor's primitive actions

  function SetChild(s: State, i: nat, c: Child): State
    requires i < |s.children|
  {
    s.(children := s.children[i := c])
  }

  /** Call the child's factory and keep an abort handle for the new task. */
  function SpawnChild(s: State, i: nat): State
    requires i < |s.children|
  {
    var c := s.children[i];
    var g := c.generation + 1;
    SetChild(s, i, c.(generation := g, abort := Some(g), state := Running, spawns := c.spawns + 1))
    .(tasks := s.tasks[(i, g) := false])
  }

  /** Start a backoff timer that will report RestartReady. */
  function ScheduleRestart(s: State, i: nat): State
    requires i < |s.children|
  {
    var c := s.children[i];
    var g := c.generation + 1;
    SetChild(s, i, c.(generation := g, state := BackingOff)).(timers := s.timers + {(i, g)})
  }

  function AbortTask(tasks: map<(nat, nat), bool>, i: nat, abort: Option<nat>): map<(nat, nat), bool> {
    if abort.Some? && (i, abort.value) in tasks then tasks[(i, abort.value) := true] else tasks
  }

  /** Abort the child's task, if any, and outdate every event of its current generation. */
  function Terminate(s: State, i: nat): State
    requires i < |s.children|
  {
    var c := s.children[i];
    SetChild(s, i, c.(generation := c.generation + 1, abort := None, state := Idle))
    .(tasks := AbortTask(s.tasks, i, c.abort))
  }

  function MarkRemoved(s: State, i: nat): State
    requires i < |s.children|
  {
    SetChild(s, i, s.children[i].(state := Removed))
  }

  /** Which children a cascade terminates: all the others, or those registered later. */
  datatype Scope = Others(failed: nat) | Later(failed: nat)

  predicate InScope(scope: Scope, i: nat) {
    match scope
    case Others(failed) => i != failed
    case Later(failed) => failed < i
  }

  /** Terminate those of the first `n` children that are in scope. */
  function TerminateSet(s: State, scope: Scope, n: nat): (s': State)
    requires n <= |s.children|
    ensures SameFrame(s, s')
  {
    if n == 0 then s
    else
      var before := TerminateSet(s, scope, n - 1);
      if InScope(scope, n - 1) then Terminate(before, n - 1) else before
  }

  /** Restart child `i` after child `failed` exited. */
  function RespawnOne(s: State, failed: nat, restart: bool, abnormal: bool, i: nat): State
    requires i < |s.children|
  {
    if i == failed then
      if !restart then s else if abnormal then ScheduleRestart(s, i) else SpawnChild(s, i)
    else if s.children[i].policy.Temporary? then MarkRemoved(s, i)
    else SpawnChild(s, i)
  }

  /** Restart the children from `lo` up to but excluding `n`, in registration order. */
  function RespawnSet(s: State, failed: nat, restart: bool, abnormal: bool, lo: nat, n: nat): (s': State)
    requires lo <= n <= |s.children|
    ensures SameFrame(s, s')
  {
    if n == lo then s
    else RespawnOne(RespawnSet(s, failed, restart, abnormal, lo, n - 1), failed, restart, abnormal, n - 1)
  }

  function Cascade(s: State, failed: nat, restart: bool, abnormal: bool): (s': State)
    requires failed < |s.children|
    ensures SameFrame(s, s')
  {
    var n := |s.children|;
    match s.strategy
    case OneForOne => RespawnOne(s, failed, restart, abnormal, failed)
    case SimpleOneForOne(_) => RespawnOne(s, failed, restart, abnormal, failed)
    case OneForAll => RespawnSet(TerminateSet(s, Others(failed), n), failed, restart, abnormal, 0, n)
    case RestForOne => RespawnSet(TerminateSet(s, Later(failed), n), failed, restart, abnormal, failed, n)
  }

  // ----- event handlers

  function Tally(failures: nat, abnormal: bool): nat {
    if !abnormal then 0 else if failures < U32_MAX then failures + 1 else failures
  }

  function Restarts(policy: Policy, abnormal: bool): bool {
    match policy
    case Permanent => true
    case Transient => abnormal
    case Temporary => false
  }

  /** The exited child before any restart decision is carried out. */
  function NoteExit(c: Child, abnormal: bool): Child {
    c.(abort := None, failures := Tally(c.failures, abnormal),
       state := if Restarts(c.policy, abnormal) then Idle else Removed)
  }

  function HandleChildExited(s: State, id: nat, generation: nat, exit: Exit): State {
    if id >= |s.children| || s.children[id].generation != generation then s
    else if s.shuttingDown then SetChild(s, id, s.children[id].(abort := None, state := Removed))
    else
      var c := s.children[id];
      Cascade(SetChild(s, id, NoteExit(c, Abnormal(exit))), id, Restarts(c.policy, Abnormal(exit)), Abnormal(exit))
  }

  function HandleRestartReady(s: State, id: nat, generation: nat): State {
    if id >= |s.children| || s.children[id].generation != generation || s.shuttingDown
      || !s.children[id].state.BackingOff? then s
    else SpawnChild(s, id)
  }

  function StopChild(s: State, i: nat): State
    requires i < |s.children|
  {
    var c := s.children[i];
    SetChild(s, i, c.(abort := None, state := match c.state {
      case Running => Idle
      case BackingOff => Removed
      case _ => c.state
    })).(tasks := AbortTask(s.tasks, i, c.abort))
  }

  function StopAll(s: State, n: nat): (s': State)
    requires n <= |s.children|
    ensures SameFrame(s, s')
  {
    if n == 0 then s else StopChild(StopAll(s, n - 1), n - 1)
  }

  function HandleShutdown(s: State): State {
    if s.shuttingDown then s else StopAll(s.(shuttingDown := true), |s.children|)
  }

  function Handle(s: State, e: Event): State {
    match e
    case Shutdown => HandleShutdown(s)
    case ChildExited(id, generation, exit) => HandleChildExited(s, id, generation, exit)
    case RestartReady(id, generation) => HandleRestartReady(s, id, generation)
  }

  // ----- the run loop and its environment

  predicate AllTerminal(s: State) {
    forall i :: 0 <= i < |s.children| ==> s.children[i].state.Removed?
  }

  predicate Alive(c: Child) {
    c.state.Running? || c.state.BackingOff?
  }

  function AliveCount(cs: seq<Child>): nat {
    if cs == [] then 0 else AliveCount(cs[..|cs| - 1]) + if Alive(cs[|cs| - 1]) then 1 else 0
  }

  /** The checks at the top of the loop. */
  function LoopTop(s: State): Option<Reason> {
    if !s.shuttingDown && AllTerminal(s) then Some(AllChildrenStopped)
    else if s.shuttingDown && AliveCount(s.children) == 0 then Some(ShutdownDone)
    else None
  }

  function ForceAbort(s: State, n: nat): (s': State)
    requires n <= |s.children|
    ensures SameFrame(s, s')
  {
    if n == 0 then s
    else
      var before := ForceAbort(s, n - 1);
      var c := before.children[n - 1];
      SetChild(before, n - 1, c.(abort := None, state := Removed)).(tasks := AbortTask(before.tasks, n - 1, c.abort))
  }

  datatype Step =
    | TaskEnds(id: nat, generation: nat, exit: Exit)
    | TimerFires(id: nat, generation: nat)
    | ShutdownRequested
    | Deliver(e: Event)
    | DrainTimeout
    | Return

  ghost predicate Takes(s: State, s': State, step: Step) {
    match step
    case TaskEnds(id, generation, exit) =>
      && (id, generation) in s.tasks
      && s' == s.(tasks := s.tasks - {(id, generation)}, queue := s.queue + multiset{ChildExited(id, generation, exit)})
    case TimerFires(id, generation) =>
      && (id, generation) in s.timers
      && s' == s.(timers := s.timers - {(id, generation)}, queue := s.queue + multiset{RestartReady(id, generation)})
    case ShutdownRequested =>
      s' == s.(queue := s.queue + multiset{Shutdown})
    case Deliver(e) =>
      && s.status.Looping? && LoopTop(s).None? && e in s.queue
      && s' == Handle(s.(queue := s.queue - multiset{e}), e)
    case DrainTimeout =>
      && s.status.Looping? && LoopTop(s).None? && s.shuttingDown
      && s' == ForceAbort(s, |s.children|).(status := Returned(ShutdownTimeout(AliveCount(s.children))))
    case Return =>
      && s.status.Looping? && LoopTop(s).Some?
      && s' == s.(status := Returned(LoopTop(s).value))
  }

  ghost predicate Next(s: State, s': State) {
    exists step :: Takes(s, s', step)
  }

  function SpawnAll(s: State, n: nat): (s': State)
    requires n <= |s.children|
    ensures SameFrame(s, s')
  {
    if n == 0 then s else SpawnChild(SpawnAll(s, n - 1), n - 1)
  }

  /** Freshly registered children, just before `run` starts them. */
  ghost predicate Registered(s: State) {
    && (forall i :: 0 <= i < |s.children| ==> s.children[i] == Child(s.children[i].policy, 0, None, Idle, 0, 0))
    && s.tasks == map[] && s.timers == {} && s.queue == multiset{} && !s.shuttingDown && s.status.Looping?
  }

  ghost predicate StepAt(run: seq<State>, i: nat) {
    i + 1 < |run| ==> Next(run[i], run[i + 1])
  }

  ghost predicate IsRun(run: seq<State>) {
    && |run| > 0 && (exists s :: Registered(s) && run[0] == SpawnAll(s, |s.children|))
    && forall i: nat :: StepAt(run, i)
  }
}
