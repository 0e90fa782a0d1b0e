/** Overlapping commits: the pointer of a key is read under one lock and written under another, so it can move
    backwards. What that breaks, and exactly when. */
module RampRaces {
  import opened Collections
  import opened RampCore
  import opened RampProtocol
  import opened RampReads

  // ----- extending runs

  ghost function Last(run: seq<State>): State
    requires run != []
  {
    run[|run| - 1]
  }

  lemma Extend(run: seq<State>, s: State)
    requires IsRun(run) && Next(Last(run), s)
    ensures IsRun(run + [s])
  {
    var run' := run + [s];
    forall i: nat ensures StepAt(run', i) {
      assert StepAt(run, i);
    }
  }

  /** One more writer step. */
  lemma Writes1(run: seq<State>, step: WriteStep, x: World) returns (run': seq<State>)
    requires IsRun(run) && WriterMoves(Last(run).world, x, step)
    ensures IsRun(run') && run' == run + [State(x, Last(run).readers)]
  {
    run' := run + [State(x, Last(run).readers)];
    assert WriterTurn(Last(run), State(x, Last(run).readers));
    Extend(run, State(x, Last(run).readers));
  }

  /** One more reader step. */
  lemma Reads1(run: seq<State>, r: nat, rd: Reader, step: ReadStep) returns (run': seq<State>)
    requires IsRun(run) && r in Last(run).readers
    requires ReaderMoves(Last(run).world.store, Last(run).readers[r], rd, step)
    ensures IsRun(run') && run' == run + [State(Last(run).world, Last(run).readers[r := rd])]
  {
    var s := State(Last(run).world, Last(run).readers[r := rd]);
    assert ReaderTurn(Last(run), s, r, rd, step);
    Extend(run, s);
    run' := run + [s];
  }

  lemma Arrives(run: seq<State>, r: nat, keys: seq<Key>) returns (run': seq<State>)
    requires IsRun(run) && r !in Last(run).readers
    ensures IsRun(run') && run' == run + [State(Last(run).world, Last(run).readers[r := Fetching(keys, 0, None, [])])]
  {
    var s := State(Last(run).world, Last(run).readers[r := Fetching(keys, 0, None, [])]);
    assert ReaderArrives(Last(run), s);
    Extend(run, s);
    run' := run + [s];
  }

  // ----- a pointer can move backwards exactly when two commits of its key overlap

  ghost predicate Regresses(run: seq<State>, i: nat, k: Key) {
    i + 1 < |run| && !PointerGrows(run[i].world.store.pointers, run[i + 1].world.store.pointers, k)
  }

  /** Two more steps after `run`. */
  ghost predicate TwoMore(run: seq<State>, run': seq<State>) {
    IsRun(run') && |run'| == |run| + 2 && run'[..|run|] == run
  }

  ghost predicate CalmBefore(run: seq<State>, k: Key) {
    forall i :: 0 <= i < |run| - 1 ==> Calm(run[i].world, k)
  }

  ghost predicate CanRegress(run: seq<State>, k: Key) {
    exists run' :: TwoMore(run, run') && Regresses(run', |run|, k)
  }

  /** Up to the first overlap no pointer moves backwards; from there two steps are enough. */
  lemma RegressIffOverlap(run: seq<State>, k: Key)
    requires IsRun(run) && CalmBefore(run, k)
    ensures CanRegress(run, k) <==> !Calm(Last(run).world, k)
    ensures forall i: nat :: i + 1 < |run| ==> !Regresses(run, i, k)
  {
    if !Calm(Last(run).world, k) {
      var run' := OverlapRegresses(run, k);
    } else {
      forall run': seq<State> | TwoMore(run, run') ensures !Regresses(run', |run|, k) {
        assert Last(run) == run'[|run| - 1];
        forall i | 0 <= i < |run| ensures Calm(run'[i].world, k) {
          assert run'[i] == run[i];
        }
        CalmSoFar(run', |run|, k);
      }
    }
    forall i: nat | i + 1 < |run| ensures !Regresses(run, i, k) {
      CalmSoFar(run, i, k);
    }
  }

  /** With commits of `k` apart until just before state `i`, the step from `i` does not take its pointer back. */
  lemma CalmSoFar(run: seq<State>, i: nat, k: Key)
    requires IsRun(run) && i + 1 < |run| && forall j :: 0 <= j < i ==> Calm(run[j].world, k)
    ensures !Regresses(run, i, k)
  {
    SteadySoFar(run, i, k);
    assert StepAt(run, i);
    if WriterTurn(run[i], run[i + 1]) {
      var step :| WriterMoves(run[i].world, run[i + 1].world, step);
      if step.Put? {
        assert SteadyAt(run[i].world, k, step.w);
      }
    }
  }

  lemma {:induction false} SteadySoFar(run: seq<State>, i: nat, k: Key)
    requires IsRun(run) && i < |run| && forall j :: 0 <= j < i ==> Calm(run[j].world, k)
    ensures WorldInv(run[i].world) && SteadyKey(run[i].world, k)
  {
    if i > 0 {
      SteadySoFar(run, i - 1, k);
      assert StepAt(run, i - 1);
      if WriterTurn(run[i - 1], run[i]) {
        var step :| WriterMoves(run[i - 1].world, run[i].world, step);
        WriterKeeps(run[i - 1].world, run[i].world, step);
        SteadyKeeps(run[i - 1].world, run[i].world, step, k);
      }
    } else {
      forall w ensures SteadyAt(run[0].world, k, w) {
      }
    }
  }

  /** The later of two overlapping commits writes first, then the earlier one. */
  lemma OverlapRegresses(run: seq<State>, k: Key) returns (run': seq<State>)
    requires IsRun(run) && !Calm(Last(run).world, k)
    ensures TwoMore(run, run') && Regresses(run', |run|, k)
  {
    RunKeeps(run, |run| - 1, iset{});
    var x := Last(run).world;
    var v, w :| Putting(x, v, k) && Putting(x, w, k) && v != w;
    if x.writers[v].ts < x.writers[w].ts {
      run' := PutBoth(run, w, v, k);
    } else {
      run' := PutBoth(run, v, w, k);
    }
  }

  lemma PutBoth(run: seq<State>, late: nat, early: nat, k: Key) returns (run': seq<State>)
    requires IsRun(run) && Putting(Last(run).world, late, k) && Putting(Last(run).world, early, k) && late != early
    requires Last(run).world.writers[early].ts < Last(run).world.writers[late].ts
    ensures TwoMore(run, run') && Regresses(run', |run|, k)
  {
    var x1 := AfterPut(Last(run).world, late);
    var run1 := Writes1(run, Put(late), x1);
    var x2 := AfterPut(x1, early);
    run' := Writes1(run1, Put(early), x2);
    assert run'[|run|].world == x1 && run'[|run| + 1].world == x2;
  }

  function AfterPut(x: World, w: nat): World
    requires w in x.writers && x.writers[w].committed < |x.writers[w].writes|
  {
    var wr := x.writers[w];
    x.(store := SetPointer(x.store, wr.writes[wr.committed].key, wr.ts),
       writers := x.writers[w := wr.(committed := wr.committed + 1, putting := false)])
  }

  // ----- two writers that overlap

  const V: Value := [7]

  /** Writer 0 writes `x` and has read its missing pointer; writer 1 then writes `x` and `y` and is done. */
  ghost function RaceWorld(x: Key, y: Key): World {
    World(Store(map[(x, 1) := Body([], V), (x, 2) := Body([y], V), (y, 2) := Body([x], V)], map[x := 2, y := 2]),
          map[0 := 2],
          map[0 := Writer(1, [Write(x, V)], 1, 0, true), 1 := Writer(2, [Write(x, V), Write(y, V)], 2, 2, false)])
  }

  ghost function Empty(): State {
    State(World(Store(map[], map[]), map[], map[]), map[])
  }

  lemma First(x: Key) returns (run: seq<State>)
    ensures IsRun(run) && Last(run).readers == map[]
    ensures Last(run).world == World(Store(map[(x, 1) := Body([], V)], map[]), map[0 := 1],
                                     map[0 := Writer(1, [Write(x, V)], 1, 0, true)])
  {
    run := [Empty()];
    var w := Empty().world;
    var ws := [Write(x, V)];
    assert Siblings(ws, x) == [] by { assert ws[..0] == []; }
    var w1 := w.(clocks := map[0 := 1], writers := map[0 := Writer(1, ws, 0, 0, false)]);
    assert Stamp(0, 1) == 1;
    run := Writes1(run, Begin(0, 0, ws), w1);
    var w2 := w1.(store := Store(map[(x, 1) := Body([], V)], map[]), writers := map[0 := Writer(1, ws, 1, 0, false)]);
    run := Writes1(run, Prepare(0), w2);
    var w3 := w2.(writers := map[0 := Writer(1, ws, 1, 0, true)]);
    run := Writes1(run, Compare(0), w3);
  }

  lemma BatchSiblings(x: Key, y: Key)
    requires x != y
    ensures Siblings([Write(x, V), Write(y, V)], x) == [y] && Siblings([Write(x, V), Write(y, V)], y) == [x]
  {
    var ws, one := [Write(x, V), Write(y, V)], [Write(x, V)];
    assert ws[..1] == one && one[..0] == [];
    assert Siblings(one, x) == [] && Siblings(one, y) == [] + [x];
    assert Siblings(ws, x) == [] + [y];
  }

  lemma Second(x: Key, y: Key) returns (run: seq<State>)
    requires x != y
    ensures IsRun(run) && Last(run).readers == map[]
    ensures Last(run).world ==
      World(Store(RaceWorld(x, y).store.versions, map[]), map[0 := 2],
            map[0 := Writer(1, [Write(x, V)], 1, 0, true), 1 := Writer(2, [Write(x, V), Write(y, V)], 2, 0, false)])
  {
    run := First(x);
    var w := Last(run).world;
    var ws := [Write(x, V), Write(y, V)];
    BatchSiblings(x, y);
    assert Stamp(0, 2) == 2;
    var w1 := w.(clocks := map[0 := 2], writers := w.writers[1 := Writer(2, ws, 0, 0, false)]);
    run := Writes1(run, Begin(1, 0, ws), w1);
    var w2 := w1.(store := PutVersion(w1.store, Item(x, 2, [y], V)),
                  writers := w.writers[1 := Writer(2, ws, 1, 0, false)]);
    run := Writes1(run, Prepare(1), w2);
    var w3 := w2.(store := PutVersion(w2.store, Item(y, 2, [x], V)),
                  writers := w.writers[1 := Writer(2, ws, 2, 0, false)]);
    run := Writes1(run, Prepare(1), w3);
    assert w3.store.versions == RaceWorld(x, y).store.versions;
  }

  /** A writer reads and writes its next pointer with nothing in between. */
  lemma Commits1(run: seq<State>, w: nat) returns (run': seq<State>)
    requires IsRun(run) && w in Last(run).world.writers
    requires var wr := Last(run).world.writers[w];
      && wr.prepared == |wr.writes| && wr.committed < |wr.writes| && !wr.putting
      && wr.writes[wr.committed].key !in Last(run).world.store.pointers
    ensures IsRun(run') && |run'| == |run| + 2 && Last(run').readers == Last(run).readers
    ensures var x, wr := Last(run).world, Last(run).world.writers[w];
      Last(run').world == x.(store := SetPointer(x.store, wr.writes[wr.committed].key, wr.ts),
                             writers := x.writers[w := wr.(committed := wr.committed + 1)])
  {
    var x, wr := Last(run).world, Last(run).world.writers[w];
    var x1 := x.(writers := x.writers[w := wr.(putting := true)]);
    run' := Writes1(run, Compare(w), x1);
    var x2 := x.(store := SetPointer(x.store, wr.writes[wr.committed].key, wr.ts),
                 writers := x.writers[w := wr.(committed := wr.committed + 1)]);
    assert x1.writers[w := wr.(committed := wr.committed + 1)] == x2.writers;
    run' := Writes1(run', Put(w), x2);
  }

  lemma Race(x: Key, y: Key) returns (run: seq<State>)
    requires x != y
    ensures IsRun(run) && Last(run) == State(RaceWorld(x, y), map[])
  {
    run := Second(x, y);
    run := Commits1(run, 1);
    run := Commits1(run, 1);
    assert Last(run).world.store.pointers == map[x := 2, y := 2];
    assert Last(run).world == RaceWorld(x, y);
  }

  /** Writer 0 writes the pointer it read as missing. */
  ghost function LateWorld(x: Key, y: Key): World {
    RaceWorld(x, y).(store := Store(RaceWorld(x, y).store.versions, map[x := 1, y := 2]),
                     writers := RaceWorld(x, y).writers[0 := Writer(1, [Write(x, V)], 1, 1, false)])
  }

  lemma LatePut(run: seq<State>, x: Key, y: Key) returns (run': seq<State>)
    requires IsRun(run) && x != y && Last(run).world == RaceWorld(x, y)
    ensures IsRun(run') && run' == run + [State(LateWorld(x, y), Last(run).readers)]
  {
    assert SetPointer(RaceWorld(x, y).store, x, 1).pointers == map[x := 1, y := 2];
    run' := Writes1(run, Put(0), LateWorld(x, y));
  }

  /** A run in which a write returned, a read of its key started after that, and the read returned the version
      before it: the pointer went back from 2 to 1. */
  lemma CompletedWriteMissed(x: Key, y: Key) returns (run: seq<State>, i: nat)
    requires x != y
    ensures IsRun(run) && i < |run| && Regresses(run, i, x)
    ensures 1 in run[i].world.writers && run[i].world.writers[1].committed == |run[i].world.writers[1].writes|
    ensures Writes(run[i].world.writers[1].writes, x)
    ensures run[i].readers == map[] && 0 in Last(run).readers && Last(run).readers[0].Done?
    ensures Last(run).readers[0].keys == [x] && !Holds(Last(run).readers[0].chosen, x, run[i].world.writers[1].ts)
  {
    run := Race(x, y);
    i := |run| - 1;
    assert RaceWorld(x, y).writers[1].writes[0].key == x;
    run := LatePut(run, x, y);
    var item := Item(x, 1, [], V);
    run := Arrives(run, 0, [x]);
    run := Reads1(run, 0, Fetching([x], 0, Some(1), []), ReadPointer);
    run := Reads1(run, 0, Fetching([x], 1, None, [item]), ReadVersion);
    run := Reads1(run, 0, Repairing([x], [item], [], 0, Overlay([item])), Decide([]));
    run := Reads1(run, 0, Done([x], Overlay([item]), 1), Finish);
    assert [item][..0] == [];
  }

  // ----- a key asked for twice

  ghost predicate NoRepeats(keys: seq<Key>) {
    forall i, j :: 0 <= i < j < |keys| ==> keys[i] != keys[j]
  }

  /** Every finished read of these keys, in every run, is free of fractures. */
  ghost predicate AlwaysAtomic(keys: seq<Key>) {
    forall run: seq<State>, i: nat, r: nat :: FinishedRead(run, i, r, keys) ==> FractureFree(run[i].readers[r].chosen)
  }

  ghost predicate FinishedRead(run: seq<State>, i: nat, r: nat, keys: seq<Key>) {
    && IsRun(run) && i < |run| && r in run[i].readers
    && run[i].readers[r].Done? && run[i].readers[r].keys == keys
  }

  /** A read set can be relied on, whatever writers do, exactly when it asks for no key twice. */
  lemma AtomicIffNoRepeats(keys: seq<Key>)
    ensures AlwaysAtomic(keys) <==> NoRepeats(keys)
  {
    if NoRepeats(keys) {
      forall run: seq<State>, i: nat, r: nat | FinishedRead(run, i, r, keys)
        ensures FractureFree(run[i].readers[r].chosen)
      {
        ReadsAreAtomic(run, i, r);
      }
    } else {
      var i, j :| 0 <= i < j < |keys| && keys[i] == keys[j];
      var run := FracturedRead(keys, i, j);
      assert FinishedRead(run, |run| - 1, 0, keys);
    }
  }

  lemma {:induction false} FreshKey(keys: seq<Key>) returns (y: Key)
    ensures forall i :: 0 <= i < |keys| ==> |keys[i]| < |y|
  {
    if keys == [] {
      y := [];
    } else {
      y := FreshKey(keys[..|keys| - 1]);
      y := y + keys[|keys| - 1] + [0];
    }
  }

  /** `item` once for every time its key is among `keys`. */
  function Picks(item: Item, keys: seq<Key>): seq<Item> {
    if keys == [] then []
    else Picks(item, keys[..|keys| - 1]) + (if keys[|keys| - 1] == item.key then [item] else [])
  }

  lemma {:induction false} PicksAre(item: Item, keys: seq<Key>)
    ensures forall i :: 0 <= i < |Picks(item, keys)| ==> Picks(item, keys)[i] == item
    ensures item.key in keys ==> Picks(item, keys) != []
  {
    if keys != [] {
      PicksAre(item, keys[..|keys| - 1]);
      assert keys == keys[..|keys| - 1] + [keys[|keys| - 1]];
    }
  }

  /** The store shows `item` for its key and nothing for the other keys asked for. */
  ghost predicate Shows(st: Store, item: Item, keys: seq<Key>) {
    && LatestVisible(st, item.key) == Some(item.ts) && GetVersion(st, item.key, item.ts) == Some(item)
    && forall k :: k in keys && k != item.key ==> k !in st.pointers
  }

  /** Reading keys `lo` to `hi` from a store that stands still. */
  lemma {:induction false} ReadAlong(run: seq<State>, keys: seq<Key>, lo: nat, hi: nat, before: seq<Item>, item: Item)
    returns (run': seq<State>)
    requires IsRun(run) && lo <= hi <= |keys| && Shows(Last(run).world.store, item, keys)
    requires Last(run).readers == map[0 := Fetching(keys, lo, None, before)]
    ensures IsRun(run') && Last(run').world == Last(run).world
    ensures Last(run').readers == map[0 := Fetching(keys, hi, None, before + Picks(item, keys[lo..hi]))]
    decreases hi - lo
  {
    if lo == hi {
      assert before + [] == before;
      return run;
    }
    run' := ReadAlong(run, keys, lo, hi - 1, before, item);
    run' := ReadOne(run', keys, hi - 1, before + Picks(item, keys[lo..hi - 1]), item);
    assert keys[lo..hi][..hi - 1 - lo] == keys[lo..hi - 1] && keys[lo..hi][hi - 1 - lo] == keys[hi - 1];
    PickNext(before, item, keys[lo..hi]);
  }

  lemma {:induction false} PickNext(before: seq<Item>, item: Item, keys: seq<Key>)
    requires keys != []
    ensures before + Picks(item, keys) ==
            before + Picks(item, keys[..|keys| - 1]) + (if keys[|keys| - 1] == item.key then [item] else [])
  {
    Joins(before, Picks(item, keys[..|keys| - 1]), if keys[|keys| - 1] == item.key then [item] else []);
  }

  lemma Joins(a: seq<Item>, b: seq<Item>, c: seq<Item>)
    ensures a + (b + c) == a + b + c
  {
  }

  lemma ReadOne(run: seq<State>, keys: seq<Key>, n: nat, got: seq<Item>, item: Item) returns (run': seq<State>)
    requires IsRun(run) && n < |keys| && Shows(Last(run).world.store, item, keys)
    requires Last(run).readers == map[0 := Fetching(keys, n, None, got)]
    ensures IsRun(run') && Last(run').world == Last(run).world
    ensures Last(run').readers ==
      map[0 := Fetching(keys, n + 1, None, got + (if keys[n] == item.key then [item] else []))]
  {
    if keys[n] == item.key {
      run' := Reads1(run, 0, Fetching(keys, n, Some(item.ts), got), ReadPointer);
      run' := Reads1(run', 0, Fetching(keys, n + 1, None, got + [item]), ReadVersion);
    } else {
      assert keys[n] in keys && got + [] == got;
      run' := Reads1(run, 0, Fetching(keys, n + 1, None, got), ReadPointer);
    }
  }

  /** The first round of the fractured read: `x` at 2, then `x` at 1. */
  ghost predicate Mixed(round1: seq<Item>, x: Key, y: Key) {
    && (exists i :: 0 <= i < |round1| - 1 && round1[i] == Item(x, 2, [y], V))
    && round1[|round1| - 1] == Item(x, 1, [], V)
    && forall i :: 0 <= i < |round1| ==> round1[i] == Item(x, 2, [y], V) || round1[i] == Item(x, 1, [], V)
  }

  lemma {:induction false} MixedOverlay(round1: seq<Item>, x: Key)
    requires forall i :: 0 <= i < |round1| ==> round1[i].key == x
    ensures round1 != [] ==> Overlay(round1) == map[x := round1[|round1| - 1]]
    ensures forall k :: k != x ==> Seen(round1, k) == 0
  {
    if round1 != [] {
      MixedOverlay(round1[..|round1| - 1], x);
    }
  }

  lemma MixedRepair(round1: seq<Item>, x: Key, y: Key)
    requires round1 != [] && Mixed(round1, x, y) && x != y
    ensures IsRepair(round1, [(y, 2)])
  {
    MixedOverlay(round1, x);
    var i :| 0 <= i < |round1| - 1 && round1[i] == Item(x, 2, [y], V);
    assert Demands(round1, i, y);
    forall k: Key, t: Timestamp ensures (k, t) in [(y, 2)] <==> MustFetch(round1, k, t) {
      forall j | Demands(round1, j, k) ensures k == y && round1[j].ts == 2 {
      }
      if (k, t) == (y, 2) {
        assert MustFetch(round1, y, 2);
      }
    }
  }

  lemma FracturedRead(keys: seq<Key>, i: nat, j: nat) returns (run: seq<State>)
    requires i < j < |keys| && keys[i] == keys[j]
    ensures run != [] && FinishedRead(run, |run| - 1, 0, keys) && !FractureFree(Last(run).readers[0].chosen)
  {
    var x := keys[i];
    var y := FreshKey(keys);
    assert y !in keys;
    var round1;
    run, round1 := FirstRoundMixed(keys, i, j, x, y);
    MixedRepair(round1, x, y);
    MixedOverlay(round1, x);
    var chosen := map[x := Item(x, 1, [], V)];
    var other := Item(y, 2, [x], V);
    run := Reads1(run, 0, Repairing(keys, round1, [(y, 2)], 0, chosen), Decide([(y, 2)]));
    run := Reads1(run, 0, Repairing(keys, round1, [(y, 2)], 1, chosen[y := other]), Refetch);
    run := Reads1(run, 0, Done(keys, chosen[y := other], 2), Finish);
    var got := Last(run).readers[0].chosen;
    assert got[y] == other && x in got[y].siblings && !Holds(got, x, got[y].ts);
  }

  /** What was picked before the pointer went back, then what was picked after. */
  lemma PickedBoth(before: seq<Key>, after: seq<Key>, x: Key, y: Key)
    requires x in before && x in after
    ensures var round1 := Picks(Item(x, 2, [y], V), before) + Picks(Item(x, 1, [], V), after);
            round1 != [] && Mixed(round1, x, y)
  {
    var a, b := Picks(Item(x, 2, [y], V), before), Picks(Item(x, 1, [], V), after);
    PicksAre(Item(x, 2, [y], V), before);
    PicksAre(Item(x, 1, [], V), after);
    assert (a + b)[0] == a[0] && (a + b)[|a + b| - 1] == b[|b| - 1];
  }

  lemma FirstRoundMixed(keys: seq<Key>, i: nat, j: nat, x: Key, y: Key) returns (run: seq<State>, round1: seq<Item>)
    requires i < j < |keys| && keys[i] == keys[j] == x && y !in keys
    ensures IsRun(run) && Last(run) == State(LateWorld(x, y), map[0 := Fetching(keys, |keys|, None, round1)])
    ensures round1 != [] && Mixed(round1, x, y)
  {
    var new', old' := Item(x, 2, [y], V), Item(x, 1, [], V);
    run := Race(x, y);
    run := Arrives(run, 0, keys);
    run := ReadAlong(run, keys, 0, i + 1, [], new');
    var a := Picks(new', keys[0..i + 1]);
    assert [] + a == a;
    run := LatePut(run, x, y);
    run := ReadAlong(run, keys, i + 1, |keys|, a, old');
    round1 := a + Picks(old', keys[i + 1..|keys|]);
    assert keys[0..i + 1][i] == x && keys[i + 1..|keys|][j - i - 1] == x;
    PickedBoth(keys[0..i + 1], keys[i + 1..|keys|], x, y);
  }
}
