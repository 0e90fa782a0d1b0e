/** Two peers that sweep each other's stores, step by step and interleaved: when they converge, and what is lost. */
module MstSweeps {
  import opened Bytes
  import opened Collections
  import opened Digests
  import opened MstBuild
  import opened MstDiff
  import opened MstReconcile

  /** A sweep lists the keys to pull by comparing trees, then fetches and puts one object after the other. `held` is
      the object that was fetched for the next key and is not yet put. */
  datatype Phase = Waiting | Sweeping(todo: seq<Bytes>, held: Option<Bytes>)

  /** `swept` is having finished a sweep. */
  datatype Peer = Peer(store: Store, phase: Phase, swept: bool)

  datatype State = State(left: Peer, right: Peer)

  datatype Who = Left | Right

  function Own(s: State, who: Who): Peer {
    if who.Left? then s.left else s.right
  }

  function Other(s: State, who: Who): Peer {
    if who.Left? then s.right else s.left
  }

  function SetOwn(s: State, who: Who, p: Peer): State {
    if who.Left? then s.(left := p) else s.(right := p)
  }

  datatype Step =
    | Compare(who: Who, keys: seq<Bytes>)
    | Fetch(who: Who)
    | Put(who: Who)
    | Finish(who: Who)

  /** Which pairs of stores have trees that collide. */
  type Suspect = (Store, Store) -> bool

  ghost function Colliding(h: Hasher, level: Leveler): Suspect {
    (mine, theirs) => TreesCollide(h, level, mine, theirs)
  }

  /** What comparing the two trees lists: the differing keys in key order, or anything when nodes collide. */
  ghost predicate MayList(h: Hasher, bad: Suspect, mine: Store, theirs: Store, keys: seq<Bytes>) {
    bad(mine, theirs) || keys == Differing(Summary(h, theirs), Summary(h, mine))
  }

  ghost predicate Moves(h: Hasher, bad: Suspect, s: State, s': State, step: Step) {
    var own, other := Own(s, step.who), Other(s, step.who);
    match step
    case Compare(who, keys) =>
      && own.phase.Waiting? && MayList(h, bad, own.store, other.store, keys)
      && s' == SetOwn(s, who, own.(phase := Sweeping(keys, None)))
    case Fetch(who) =>
      && own.phase.Sweeping? && own.phase.held.None? && own.phase.todo != []
      && var k := own.phase.todo[0];
      s' == SetOwn(s, who, own.(phase := if k in other.store then own.phase.(held := Some(other.store[k]))
                                         else Sweeping(own.phase.todo[1..], None)))
    case Put(who) =>
      && own.phase.Sweeping? && own.phase.held.Some? && own.phase.todo != []
      && s' == SetOwn(s, who, own.(store := own.store[own.phase.todo[0] := own.phase.held.value],
                                   phase := Sweeping(own.phase.todo[1..], None)))
    case Finish(who) =>
      && own.phase == Sweeping([], None)
      && s' == SetOwn(s, who, own.(phase := Waiting, swept := true))
  }

  ghost predicate Next(h: Hasher, bad: Suspect, s: State, s': State) {
    exists step :: Moves(h, bad, s, s', step)
  }

  ghost predicate StepAt(h: Hasher, bad: Suspect, run: seq<State>, i: nat) {
    i + 1 < |run| ==> Next(h, bad, run[i], run[i + 1])
  }

  ghost predicate Init(s: State, a: Store, b: Store) {
    s == State(Peer(a, Waiting, false), Peer(b, Waiting, false))
  }

  /** Any interleaving of any number of sweeps of the two sides. */
  ghost predicate IsRun(h: Hasher, bad: Suspect, a: Store, b: Store, run: seq<State>) {
    |run| > 0 && Init(run[0], a, b) && forall i: nat :: StepAt(h, bad, run, i)
  }

  /** Both sides have finished a sweep. */
  predicate BothSwept(s: State) {
    s.left.swept && s.right.swept
  }

  /** If the step compares the two stores, their trees do not collide. */
  ghost predicate CleanMove(h: Hasher, bad: Suspect, s: State, s': State) {
    forall who, keys :: Moves(h, bad, s, s', Compare(who, keys)) ==>
      !bad(Own(s, who).store, Other(s, who).store)
  }

  ghost predicate CleanAt(h: Hasher, bad: Suspect, run: seq<State>, i: nat) {
    i + 1 < |run| ==> CleanMove(h, bad, run[i], run[i + 1])
  }

  ghost predicate Clean(h: Hasher, bad: Suspect, run: seq<State>) {
    forall i: nat :: CleanAt(h, bad, run, i)
  }

  // ----- what no sweep does, whatever collides

  predicate Holds(st: Store, k: Bytes, v: Bytes) {
    k in st && st[k] == v
  }

  /** The peer holds only objects of the two original stores, and still has its own keys. */
  ghost predicate Honest(p: Peer, mine: Store, theirs: Store) {
    && mine.Keys <= p.store.Keys
    && (forall k :: k in p.store ==> Holds(mine, k, p.store[k]) || Holds(theirs, k, p.store[k]))
    && (p.phase.Sweeping? && p.phase.held.Some? ==>
          p.phase.todo != [] &&
          (Holds(mine, p.phase.todo[0], p.phase.held.value) || Holds(theirs, p.phase.todo[0], p.phase.held.value)))
  }

  ghost predicate BothHonest(s: State, a: Store, b: Store) {
    Honest(s.left, a, b) && Honest(s.right, b, a)
  }

  lemma StepHonest(h: Hasher, bad: Suspect, a: Store, b: Store, s: State, s': State, step: Step)
    requires BothHonest(s, a, b) && Moves(h, bad, s, s', step)
    ensures BothHonest(s', a, b)
  {
  }

  /** In every run no key is lost on either side and nothing is invented. */
  lemma {:induction false} NothingInvented(h: Hasher, bad: Suspect, a: Store, b: Store, run: seq<State>, i: nat)
    requires IsRun(h, bad, a, b, run) && i < |run|
    ensures BothHonest(run[i], a, b)
  {
    if i > 0 {
      NothingInvented(h, bad, a, b, run, i - 1);
      assert StepAt(h, bad, run, i - 1);
      var step :| Moves(h, bad, run[i - 1], run[i], step);
      StepHonest(h, bad, a, b, run[i - 1], run[i], step);
    }
  }

  // ----- convergence

  /** No key is held with two values. */
  predicate Agree(a: Store, b: Store) {
    forall k :: k in a && k in b ==> a[k] == b[k]
  }

  /** Every original object is still held by a side. */
  ghost predicate AllKept(s: State, a: Store, b: Store) {
    forall k, v :: Holds(a, k, v) || Holds(b, k, v) ==> Holds(s.left.store, k, v) || Holds(s.right.store, k, v)
  }

  /** What the peer lacks of the other side's original keys is still to be pulled. */
  ghost predicate Pulling(p: Peer, theirs: Store) {
    && (p.swept ==> theirs.Keys <= p.store.Keys)
    && (p.phase.Sweeping? ==> forall k :: k in theirs ==> k in p.store || k in p.phase.todo)
  }

  ghost predicate BothPulling(s: State, a: Store, b: Store) {
    Pulling(s.left, b) && Pulling(s.right, a)
  }

  lemma CompareLists(h: Hasher, own: Store, other: Store, k: Bytes)
    requires k in other && k !in own
    ensures k in Differing(Summary(h, other), Summary(h, own))
  {
    assert k in DifferingSet(Summary(h, other), Summary(h, own));
  }

  lemma OwnPulls(h: Hasher, own: Peer, other: Peer, own': Peer, theirs: Store, keys: seq<Bytes>)
    requires Pulling(own, theirs) && theirs.Keys <= other.store.Keys
    requires keys == Differing(Summary(h, other.store), Summary(h, own.store))
    requires own' == own.(phase := Sweeping(keys, None))
    ensures Pulling(own', theirs)
  {
    forall k | k in theirs && k !in own.store ensures k in keys {
      CompareLists(h, own.store, other.store, k);
    }
  }

  lemma ComparePulls(h: Hasher, bad: Suspect, a: Store, b: Store, s: State, s': State, who: Who, keys: seq<Bytes>)
    requires BothHonest(s, a, b) && BothPulling(s, a, b) && Moves(h, bad, s, s', Compare(who, keys))
    requires !bad(Own(s, who).store, Other(s, who).store)
    ensures BothPulling(s', a, b)
  {
    OwnPulls(h, Own(s, who), Other(s, who), Own(s', who), if who.Left? then b else a, keys);
  }

  lemma StepPulls(h: Hasher, bad: Suspect, a: Store, b: Store, s: State, s': State, step: Step)
    requires BothHonest(s, a, b) && BothPulling(s, a, b) && Moves(h, bad, s, s', step) && !step.Compare?
    ensures BothPulling(s', a, b)
  {
  }

  lemma MovePulls(h: Hasher, bad: Suspect, a: Store, b: Store, s: State, s': State)
    requires BothHonest(s, a, b) && BothPulling(s, a, b) && Next(h, bad, s, s') && CleanMove(h, bad, s, s')
    ensures BothHonest(s', a, b) && BothPulling(s', a, b)
  {
    var step :| Moves(h, bad, s, s', step);
    StepHonest(h, bad, a, b, s, s', step);
    if step.Compare? {
      ComparePulls(h, bad, a, b, s, s', step.who, step.keys);
    } else {
      StepPulls(h, bad, a, b, s, s', step);
    }
  }

  lemma {:induction false} RunPulls(h: Hasher, bad: Suspect, a: Store, b: Store, run: seq<State>, i: nat)
    requires IsRun(h, bad, a, b, run) && Clean(h, bad, run) && i < |run|
    ensures BothHonest(run[i], a, b) && BothPulling(run[i], a, b)
  {
    if i > 0 {
      RunPulls(h, bad, a, b, run, i - 1);
      assert StepAt(h, bad, run, i - 1) && CleanAt(h, bad, run, i - 1);
      MovePulls(h, bad, a, b, run[i - 1], run[i]);
    }
  }

  lemma HoldsAll(p: Peer, mine: Store, theirs: Store)
    requires Honest(p, mine, theirs) && theirs.Keys <= p.store.Keys && Agree(mine, theirs)
    ensures p.store == mine + theirs == theirs + mine
  {
  }

  /** However the sweeps of the two sides interleave: once both sides have finished one, the stores are equal and
      every object is kept if and only if no key was held with two values, unless two compared trees collide. */
  lemma ConvergesIff(h: Hasher, bad: Suspect, a: Store, b: Store, run: seq<State>, i: nat)
    requires IsRun(h, bad, a, b, run) && Clean(h, bad, run) && i < |run| && BothSwept(run[i])
    ensures run[i].left.store == run[i].right.store && AllKept(run[i], a, b) <==> Agree(a, b)
    ensures Agree(a, b) ==> run[i].left.store == a + b
  {
    var s := run[i];
    NothingInvented(h, bad, a, b, run, i);
    RunPulls(h, bad, a, b, run, i);
    if Agree(a, b) {
      HoldsAll(s.left, a, b);
      HoldsAll(s.right, b, a);
    } else if AllKept(s, a, b) {
      var k :| k in a && k in b && a[k] != b[k];
      assert Holds(a, k, a[k]) && Holds(b, k, b[k]);
    }
  }

  // ----- overlapping sweeps swap the values of a conflict

  ghost function Last(run: seq<State>): State
    requires run != []
  {
    run[|run| - 1]
  }

  ghost predicate CleanRun(h: Hasher, bad: Suspect, a: Store, b: Store, run: seq<State>) {
    IsRun(h, bad, a, b, run) && Clean(h, bad, run)
  }

  lemma OneKind(h: Hasher, bad: Suspect, s: State, s': State, step: Step)
    requires Moves(h, bad, s, s', step)
    requires step.Compare? ==> !bad(Own(s, step.who).store, Other(s, step.who).store)
    ensures CleanMove(h, bad, s, s')
  {
  }

  lemma Extend(h: Hasher, bad: Suspect, a: Store, b: Store, run: seq<State>, s: State, step: Step)
    requires CleanRun(h, bad, a, b, run) && Moves(h, bad, Last(run), s, step)
    requires step.Compare? ==> !bad(Own(Last(run), step.who).store, Other(Last(run), step.who).store)
    ensures CleanRun(h, bad, a, b, run + [s])
  {
    var run' := run + [s];
    OneKind(h, bad, Last(run), s, step);
    assert Next(h, bad, Last(run), s);
    forall i: nat ensures StepAt(h, bad, run', i) && CleanAt(h, bad, run', i) {
      assert StepAt(h, bad, run, i) && CleanAt(h, bad, run, i);
    }
  }

  function Taken(own: Store, other: Store, k: Bytes): Store {
    if k in other then own[k := other[k]] else own
  }

  /** Fetch and put the next key. */
  lemma PullNext(h: Hasher, bad: Suspect, a: Store, b: Store, run: seq<State>, who: Who) returns (run': seq<State>)
    requires CleanRun(h, bad, a, b, run)
    requires var p := Own(Last(run), who).phase; p.Sweeping? && p.held.None? && p.todo != []
    ensures CleanRun(h, bad, a, b, run')
    ensures var own, other := Own(Last(run), who), Other(Last(run), who);
      Last(run') == SetOwn(Last(run), who, own.(store := Taken(own.store, other.store, own.phase.todo[0]),
                                                phase := Sweeping(own.phase.todo[1..], None)))
  {
    var s, own, other := Last(run), Own(Last(run), who), Other(Last(run), who);
    var k := own.phase.todo[0];
    if k in other.store {
      var s1 := SetOwn(s, who, own.(phase := own.phase.(held := Some(other.store[k]))));
      Extend(h, bad, a, b, run, s1, Fetch(who));
      var s2 := SetOwn(s, who, own.(store := own.store[k := other.store[k]],
                                    phase := Sweeping(own.phase.todo[1..], None)));
      Extend(h, bad, a, b, run + [s1], s2, Put(who));
      run' := run + [s1] + [s2];
    } else {
      var s1 := SetOwn(s, who, own.(phase := Sweeping(own.phase.todo[1..], None)));
      Extend(h, bad, a, b, run, s1, Fetch(who));
      run' := run + [s1];
    }
  }

  predicate SameAt(st: Store, st': Store, k: Bytes) {
    (k in st <==> k in st') && (k in st ==> st'[k] == st[k])
  }

  /** One side pulls its next `n` keys with nothing in between. */
  lemma {:induction false} PullMany(h: Hasher, bad: Suspect, a: Store, b: Store, run: seq<State>, who: Who, n: nat)
    returns (run': seq<State>)
    requires CleanRun(h, bad, a, b, run)
    requires var p := Own(Last(run), who).phase; p.Sweeping? && p.held.None? && n <= |p.todo|
    ensures CleanRun(h, bad, a, b, run') && Other(Last(run'), who) == Other(Last(run), who)
    ensures var own, own' := Own(Last(run), who), Own(Last(run'), who);
      && own'.phase == Sweeping(own.phase.todo[n..], None)
      && forall k :: k !in own.phase.todo[..n] ==> SameAt(own.store, own'.store, k)
    decreases n
  {
    var todo := Own(Last(run), who).phase.todo;
    if n == 0 {
      run' := run;
    } else {
      run' := PullNext(h, bad, a, b, run, who);
      run' := PullMany(h, bad, a, b, run', who, n - 1);
      assert todo[1..][n - 1..] == todo[n..] && todo[..n] == [todo[0]] + todo[1..][..n - 1];
    }
  }

  /** A side that waits compares and lists the differing keys. */
  lemma StartSweep(h: Hasher, bad: Suspect, a: Store, b: Store, run: seq<State>, who: Who, mine: Store, theirs: Store)
    returns (run': seq<State>)
    requires CleanRun(h, bad, a, b, run) && Own(Last(run), who).phase.Waiting? && !bad(mine, theirs)
    requires mine == Own(Last(run), who).store && theirs == Other(Last(run), who).store
    ensures CleanRun(h, bad, a, b, run')
    ensures var keys := Differing(Summary(h, theirs), Summary(h, mine));
      Last(run') == SetOwn(Last(run), who, Own(Last(run), who).(phase := Sweeping(keys, None)))
  {
    var keys := Differing(Summary(h, theirs), Summary(h, mine));
    var s := SetOwn(Last(run), who, Own(Last(run), who).(phase := Sweeping(keys, None)));
    Extend(h, bad, a, b, run, s, Compare(who, keys));
    run' := run + [s];
  }

  /** Pull the keys before `k`, which is listed once. */
  lemma ReachKey(h: Hasher, bad: Suspect, a: Store, b: Store, run: seq<State>, who: Who, k: Bytes, i: nat)
    returns (run': seq<State>, rest: seq<Bytes>)
    requires CleanRun(h, bad, a, b, run) && k in Own(Last(run), who).store
    requires var p := Own(Last(run), who).phase;
      p.Sweeping? && p.held.None? && i < |p.todo| && p.todo[i] == k && k !in p.todo[..i] && k !in p.todo[i + 1..]
    ensures CleanRun(h, bad, a, b, run') && Other(Last(run'), who) == Other(Last(run), who)
    ensures Own(Last(run'), who).phase == Sweeping([k] + rest, None) && k !in rest
    ensures Holds(Own(Last(run'), who).store, k, Own(Last(run), who).store[k])
  {
    var own := Own(Last(run), who);
    run' := PullMany(h, bad, a, b, run, who, i);
    rest := own.phase.todo[i + 1..];
    assert own.phase.todo[i..] == [k] + rest;
    assert SameAt(own.store, Own(Last(run'), who).store, k);
  }

  lemma OnlyOnce(h: Hasher, mine: Store, theirs: Store, k: Bytes) returns (i: nat)
    requires k in mine && k in theirs && h(mine[k]) != h(theirs[k])
    ensures var keys := Differing(Summary(h, theirs), Summary(h, mine));
      i < |keys| && keys[i] == k && k !in keys[..i] && k !in keys[i + 1..]
  {
    var keys := Differing(Summary(h, theirs), Summary(h, mine));
    assert k in DifferingSet(Summary(h, theirs), Summary(h, mine));
    i :| 0 <= i < |keys| && keys[i] == k;
    LessTrichotomy(k, k);
  }

  /** Put what is held, pull the rest and finish. */
  lemma EndSweep(h: Hasher, bad: Suspect, a: Store, b: Store, run: seq<State>, who: Who,
                 k: Bytes, v: Bytes, rest: seq<Bytes>)
    returns (run': seq<State>)
    requires CleanRun(h, bad, a, b, run) && Own(Last(run), who).phase == Sweeping([k] + rest, Some(v)) && k !in rest
    ensures CleanRun(h, bad, a, b, run') && Other(Last(run'), who) == Other(Last(run), who)
    ensures Own(Last(run'), who).swept && Holds(Own(Last(run'), who).store, k, v)
  {
    var own := Own(Last(run), who);
    assert ([k] + rest)[1..] == rest;
    var s1 := SetOwn(Last(run), who, own.(store := own.store[k := v], phase := Sweeping(rest, None)));
    Extend(h, bad, a, b, run, s1, Put(who));
    run' := PullMany(h, bad, a, b, run + [s1], who, |rest|);
    assert SameAt(own.store[k := v], Own(Last(run'), who).store, k);
    var s2 := SetOwn(Last(run'), who, Own(Last(run'), who).(phase := Waiting, swept := true));
    Extend(h, bad, a, b, run', s2, Finish(who));
    run' := run' + [s2];
  }

  lemma FetchKey(h: Hasher, bad: Suspect, a: Store, b: Store, run: seq<State>, who: Who, k: Bytes, rest: seq<Bytes>)
    returns (run': seq<State>)
    requires CleanRun(h, bad, a, b, run) && Own(Last(run), who).phase == Sweeping([k] + rest, None)
    requires k in Other(Last(run), who).store
    ensures CleanRun(h, bad, a, b, run')
    ensures var own := Own(Last(run), who);
      Last(run') == SetOwn(Last(run), who, own.(phase := Sweeping([k] + rest, Some(Other(Last(run), who).store[k]))))
  {
    var own := Own(Last(run), who);
    var s := SetOwn(Last(run), who, own.(phase := Sweeping([k] + rest, Some(Other(Last(run), who).store[k]))));
    Extend(h, bad, a, b, run, s, Fetch(who));
    run' := run + [s];
  }

  /** Whenever a key is held with two values there is a run in which each side sweeps once and the two values end up
      swapped: both sides fetch the key before either puts it. */
  lemma SweepsSwap(h: Hasher, bad: Suspect, a: Store, b: Store, k: Bytes) returns (run: seq<State>)
    requires k in a && k in b && h(a[k]) != h(b[k]) && !bad(a, b) && !bad(b, a)
    ensures CleanRun(h, bad, a, b, run) && BothSwept(Last(run))
    ensures Holds(Last(run).left.store, k, b[k]) && Holds(Last(run).right.store, k, a[k])
  {
    run := [State(Peer(a, Waiting, false), Peer(b, Waiting, false))];
    run := StartSweep(h, bad, a, b, run, Left, a, b);
    run := StartSweep(h, bad, a, b, run, Right, b, a);
    var i := OnlyOnce(h, a, b, k);
    var j := OnlyOnce(h, b, a, k);
    var l, r;
    run, l := ReachKey(h, bad, a, b, run, Left, k, i);
    run, r := ReachKey(h, bad, a, b, run, Right, k, j);
    run := FetchKey(h, bad, a, b, run, Left, k, l);
    run := FetchKey(h, bad, a, b, run, Right, k, r);
    run := EndSweep(h, bad, a, b, run, Left, k, b[k], l);
    run := EndSweep(h, bad, a, b, run, Right, k, a[k], r);
  }

  // ----- over the trees

  /** Every run whose compared trees do not collide ends with equal stores. */
  ghost predicate AlwaysConverge(h: Hasher, bad: Suspect, a: Store, b: Store) {
    forall run: seq<State>, i: nat :: CleanRun(h, bad, a, b, run) && i < |run| && BothSwept(run[i]) ==>
      run[i].left.store == run[i].right.store
  }

  /** The two sides are sure to converge if and only if no key is held with two values, unless something collides. */
  lemma AlwaysConvergeIff(h: Hasher, level: Leveler, a: Store, b: Store)
    requires !TreesCollide(h, level, a, b) && !TreesCollide(h, level, b, a) && !ObjectsCollide(h, a, b)
    ensures AlwaysConverge(h, Colliding(h, level), a, b) <==> Agree(a, b)
  {
    var bad := Colliding(h, level);
    assert !bad(a, b) && !bad(b, a);
    ConvergeIff(h, bad, a, b);
  }

  lemma ConvergeIff(h: Hasher, bad: Suspect, a: Store, b: Store)
    requires !bad(a, b) && !bad(b, a) && !ObjectsCollide(h, a, b)
    ensures AlwaysConverge(h, bad, a, b) <==> Agree(a, b)
  {
    if Agree(a, b) {
      forall run: seq<State>, i: nat | CleanRun(h, bad, a, b, run) && i < |run| && BothSwept(run[i])
        ensures run[i].left.store == run[i].right.store
      {
        ConvergesIff(h, bad, a, b, run, i);
      }
    } else {
      var k :| k in a && k in b && a[k] != b[k];
      var run := SweepsSwap(h, bad, a, b, k);
      var i := |run| - 1;
      assert BothSwept(run[i]) && run[i].left.store != run[i].right.store;
    }
  }
}
