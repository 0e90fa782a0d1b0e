/** The shared failure counter: concurrent callers advance it by load and compare-exchange steps. */
module FailureCounter {
  import opened Bytes
  import opened SupervisorModel

  /** `pending` holds the value each caller last observed; `returned` the results handed back since the last
      reset, oldest first. */
  datatype Counter = Counter(count: nat, pending: map<nat, nat>, returned: seq<nat>)

  datatype Move =
    | Load(t: nat)
    | Exchange(t: nat)
    | ExchangeFails(t: nat)
    | ReturnSaturated(t: nat)
    | Reset

  ghost predicate Moves(c: Counter, c': Counter, m: Move) {
    match m
    case Load(t) =>
      t !in c.pending && c' == c.(pending := c.pending[t := c.count])
    case Exchange(t) =>
      && t in c.pending && c.pending[t] != U32_MAX && c.count == c.pending[t]
      && c' == Counter(c.count + 1, c.pending - {t}, c.returned + [c.count + 1])
    case ExchangeFails(t) =>
      && t in c.pending && c.pending[t] != U32_MAX
      && c' == c.(pending := c.pending[t := c.count])
    case ReturnSaturated(t) =>
      && t in c.pending && c.pending[t] == U32_MAX
      && c' == c.(pending := c.pending - {t}, returned := c.returned + [U32_MAX])
    case Reset =>
      c' == Counter(0, c.pending, [])
  }

  ghost predicate Next(c: Counter, c': Counter) {
    exists m :: Moves(c, c', m)
  }

  ghost predicate StepAt(run: seq<Counter>, i: nat) {
    i + 1 < |run| ==> Next(run[i], run[i + 1])
  }

  ghost predicate IsRun(run: seq<Counter>) {
    |run| > 0 && run[0] == Counter(0, map[], []) && forall i: nat :: StepAt(run, i)
  }

  function Saturate(n: nat): nat {
    if n < U32_MAX then n else U32_MAX
  }

  /** Every call since the last reset is counted, up to saturation, and the n-th of them to return got n. */
  ghost predicate Exact(c: Counter) {
    && c.count == Saturate(|c.returned|)
    && forall k :: 0 <= k < |c.returned| ==> c.returned[k] == Saturate(k + 1)
  }

  /** No caller is about to return the saturated value. */
  ghost predicate NoneSaturated(c: Counter) {
    forall t :: t in c.pending ==> c.pending[t] != U32_MAX
  }

  ghost predicate Inv(c: Counter) {
    Exact(c) && (c.count == U32_MAX || NoneSaturated(c))
  }

  lemma MoveKeeps(c: Counter, c': Counter, m: Move)
    requires Inv(c) && Moves(c, c', m) && (m.Reset? ==> NoneSaturated(c))
    ensures Inv(c')
  {
  }

  /** A step of some call: any step but a reset. */
  ghost predicate Calls(c: Counter, c': Counter) {
    exists m :: Moves(c, c', m) && !m.Reset?
  }

  /** The step from `i` resets the counter only if no caller is about to return the saturated value. */
  ghost predicate CleanReset(run: seq<Counter>, i: nat) {
    i + 1 < |run| ==> NoneSaturated(run[i]) || Calls(run[i], run[i + 1])
  }

  /** No update is lost: after any interleaving of calls and clean resets the count is the number of calls that
      returned since the last reset, up to saturation. */
  lemma NoUpdateLost(run: seq<Counter>, i: nat)
    requires IsRun(run) && i < |run| && forall j: nat :: j < i ==> CleanReset(run, j)
    ensures Exact(run[i])
  {
    RunKeeps(run, i);
  }

  lemma {:induction false} RunKeeps(run: seq<Counter>, i: nat)
    requires IsRun(run) && i < |run| && forall j: nat :: j < i ==> CleanReset(run, j)
    ensures Inv(run[i])
  {
    if i > 0 {
      RunKeeps(run, i - 1);
      assert StepAt(run, i - 1) && CleanReset(run, i - 1);
      if Calls(run[i - 1], run[i]) {
        var m :| Moves(run[i - 1], run[i], m) && !m.Reset?;
        MoveKeeps(run[i - 1], run[i], m);
      } else {
        var m :| Moves(run[i - 1], run[i], m);
        MoveKeeps(run[i - 1], run[i], m);
      }
    }
  }

  // ----- when a reset loses updates

  ghost predicate CallAt(path: seq<Counter>, i: nat) {
    i + 1 < |path| ==> Calls(path[i], path[i + 1])
  }

  /** Calls interleaved from `c` on, without a further reset. */
  ghost predicate CallsFrom(c: Counter, path: seq<Counter>) {
    |path| > 0 && path[0] == c && forall i: nat :: CallAt(path, i)
  }

  ghost predicate StaysExact(c: Counter) {
    forall path: seq<Counter> :: CallsFrom(c, path) ==> Exact(path[|path| - 1])
  }

  /** After a reset the count stays exact, however the calls go on, if and only if no caller was about to return
      the saturated value when it happened. */
  lemma ResetExactIff(c: Counter, c': Counter)
    requires Moves(c, c', Reset)
    ensures StaysExact(c') <==> NoneSaturated(c)
  {
    if NoneSaturated(c) {
      forall path: seq<Counter> | CallsFrom(c', path) ensures Exact(path[|path| - 1]) {
        PathKeeps(path, |path| - 1);
      }
    } else {
      var t :| t in c.pending && c.pending[t] == U32_MAX;
      var lost := c'.(pending := c'.pending - {t}, returned := c'.returned + [U32_MAX]);
      assert Moves(c', lost, ReturnSaturated(t));
      var path := [c', lost];
      assert CallsFrom(c', path) && !Exact(path[|path| - 1]);
    }
  }

  lemma {:induction false} PathKeeps(path: seq<Counter>, i: nat)
    requires |path| > 0 && Inv(path[0]) && i < |path| && forall j: nat :: CallAt(path, j)
    ensures Inv(path[i])
  {
    if i > 0 {
      PathKeeps(path, i - 1);
      assert CallAt(path, i - 1);
      var m :| Moves(path[i - 1], path[i], m) && !m.Reset?;
      MoveKeeps(path[i - 1], path[i], m);
    }
  }

  lemma Extend(run: seq<Counter>, c: Counter, m: Move)
    requires IsRun(run) && Moves(run[|run| - 1], c, m)
    ensures IsRun(run + [c])
  {
    forall i: nat ensures StepAt(run + [c], i) {
      assert StepAt(run, i);
    }
  }

  /** A single caller drives the counter to any value. */
  lemma {:induction false} Counted(n: nat) returns (run: seq<Counter>)
    requires n <= U32_MAX
    ensures IsRun(run) && run[|run| - 1].count == n && run[|run| - 1].pending == map[]
    decreases n
  {
    if n == 0 {
      run := [Counter(0, map[], [])];
    } else {
      run := Counted(n - 1);
      var c := run[|run| - 1];
      var c1 := c.(pending := map[0 := n - 1]);
      Extend(run, c1, Load(0));
      var c2 := Counter(n, c1.pending - {0}, c.returned + [n]);
      Extend(run + [c1], c2, Exchange(0));
      run := run + [c1] + [c2];
    }
  }

  /** A run that loses an update: the counter saturates, a caller loads it, the counter is reset, and the caller
      returns without counting. */
  lemma UpdateLost() returns (run: seq<Counter>)
    ensures IsRun(run) && run[|run| - 1].count == 0 && run[|run| - 1].returned == [U32_MAX]
  {
    run := Counted(U32_MAX);
    var c := run[|run| - 1];
    var c1 := c.(pending := map[0 := U32_MAX]);
    Extend(run, c1, Load(0));
    var c2 := Counter(0, c1.pending, []);
    Extend(run + [c1], c2, Reset);
    var c3 := c2.(pending := c2.pending - {0}, returned := c2.returned + [U32_MAX]);
    Extend(run + [c1] + [c2], c3, ReturnSaturated(0));
    run := run + [c1] + [c2] + [c3];
  }

  /** The supervisor, the only caller in production, sees the sequential effect. */
  lemma SequentialCall(c: Counter, t: nat)
    requires c.count <= U32_MAX && t !in c.pending
    ensures var c1 := c.(pending := c.pending[t := c.count]);
            var c2 := Counter(Tally(c.count, true), c.pending, c.returned + [Tally(c.count, true)]);
            Moves(c, c1, Load(t)) && (Moves(c1, c2, Exchange(t)) || Moves(c1, c2, ReturnSaturated(t)))
  {
    assert c.pending[t := c.count] - {t} == c.pending;
  }
}
