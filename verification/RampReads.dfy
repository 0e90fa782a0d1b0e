/** Read atomicity of the RAMP-Fast protocol over every run. */
module RampReads {
  import opened Bytes
  import opened Collections
  import opened RampCore
  import opened RampProtocol

  // ----- what a reader holds

  /** `item` is a stored version of a transaction whose versions are all stored. */
  ghost predicate ItemOk(x: World, item: Item) {
    && Prepared(x, item.key, item.ts)
    && (item.key, item.ts) in x.store.versions
    && x.store.versions[(item.key, item.ts)] == Body(item.siblings, item.value)
  }

  ghost predicate Round1Ok(x: World, round1: seq<Item>) {
    forall i :: 0 <= i < |round1| ==> ItemOk(x, round1[i])
  }

  /** A key that was read twice was not read older the second time. */
  ghost predicate Ordered(round1: seq<Item>) {
    forall i, j :: 0 <= i < j < |round1| && round1[i].key == round1[j].key ==> round1[i].ts <= round1[j].ts
  }

  ghost predicate Holds(chosen: map<Key, Item>, k: Key, t: Timestamp) {
    k in chosen && t <= chosen[k].ts
  }

  /** What is held for `k` comes from the first round or from one of the first `n` fetches. */
  ghost predicate HeldOk(x: World, round1: seq<Item>, missing: seq<Fetch>, n: nat, chosen: map<Key, Item>, k: Key) {
    k in chosen ==>
      && chosen[k].key == k && ItemOk(x, chosen[k])
      && (chosen[k] in round1 || exists j :: 0 <= j < n && j < |missing| && missing[j] == (k, chosen[k].ts))
  }

  /** The items chosen so far: the first round, overlaid with the first `n` fetches. Read in order, nothing
      newer was passed over. */
  ghost predicate ChosenOk(x: World, round1: seq<Item>, missing: seq<Fetch>, n: nat, chosen: map<Key, Item>) {
    && n <= |missing|
    && (forall k :: HeldOk(x, round1, missing, n, chosen, k))
    && (Ordered(round1) ==>
          forall i :: 0 <= i < |round1| ==> Holds(chosen, round1[i].key, Seen(round1, round1[i].key)))
    && (forall j :: 0 <= j < n ==> Holds(chosen, missing[j].0, missing[j].1))
  }

  /** No transaction is seen in part: every sibling of every version held is held, no older. */
  ghost predicate FractureFree(chosen: map<Key, Item>) {
    forall k, y :: k in chosen && y in chosen[k].siblings ==> Holds(chosen, y, chosen[k].ts)
  }

  ghost predicate RepairOk(x: World, round1: seq<Item>, missing: seq<Fetch>, n: nat, chosen: map<Key, Item>) {
    Round1Ok(x, round1) && IsRepair(round1, missing) && ChosenOk(x, round1, missing, n, chosen)
  }

  /** Every key that is asked for twice is one whose commits do not overlap. */
  ghost predicate Steady(keys: seq<Key>, calm: iset<Key>) {
    forall i, j :: 0 <= i < j < |keys| && keys[i] == keys[j] ==> keys[i] in calm
  }

  /** The pointer of `k` is at `t` or later, if commits of `k` do not overlap. */
  ghost predicate NotPast(x: World, calm: iset<Key>, k: Key, t: Timestamp) {
    k in calm ==> k in x.store.pointers && t <= x.store.pointers[k]
  }

  /** What was read of the first `next` keys. */
  ghost predicate Drawn(x: World, calm: iset<Key>, keys: seq<Key>, next: nat, round1: seq<Item>) {
    && next <= |keys| && Round1Ok(x, round1)
    && (forall i :: 0 <= i < |round1| ==>
          round1[i].key in keys[..next] && NotPast(x, calm, round1[i].key, round1[i].ts))
    && (Steady(keys, calm) ==> Ordered(round1))
  }

  ghost predicate ReaderInv(x: World, calm: iset<Key>, rd: Reader) {
    match rd
    case Fetching(keys, next, pointer, round1) =>
      && Drawn(x, calm, keys, next, round1)
      && (pointer.Some? ==> next < |keys| && Prepared(x, keys[next], pointer.value)
                            && NotPast(x, calm, keys[next], pointer.value)
                            && (Steady(keys, calm) ==> Latest(round1, keys[next], pointer.value)))
    case Repairing(keys, round1, missing, fetched, chosen) =>
      RepairOk(x, round1, missing, fetched, chosen) && (Steady(keys, calm) ==> Ordered(round1))
    case Done(keys, chosen, _) =>
      && (Steady(keys, calm) ==> FractureFree(chosen))
      && forall k :: k in chosen ==> chosen[k].key == k && ItemOk(x, chosen[k])
    case Dangling(_, _) => false
  }

  ghost predicate Latest(round1: seq<Item>, k: Key, t: Timestamp) {
    forall i :: 0 <= i < |round1| && round1[i].key == k ==> round1[i].ts <= t
  }

  ghost predicate WorldOk(x: World, calm: iset<Key>) {
    WorldInv(x) && forall k :: k in calm ==> SteadyKey(x, k)
  }

  /** The invariant of every run in which commits of the keys in `calm` do not overlap. */
  ghost predicate Inv(s: State, calm: iset<Key>) {
    WorldOk(s.world, calm) && forall r :: r in s.readers ==> ReaderInv(s.world, calm, s.readers[r])
  }

  ghost predicate CalmGrows(x: World, x': World, calm: iset<Key>) {
    forall k :: k in calm ==> PointerGrows(x.store.pointers, x'.store.pointers, k)
  }

  lemma ReaderInvGrows(x: World, x': World, calm: iset<Key>, rd: Reader)
    requires ReaderInv(x, calm, rd) && Grows(x, x') && CalmGrows(x, x', calm)
    ensures ReaderInv(x', calm, rd)
  {
    ItemsGrow(x, x');
    if rd.Repairing? {
      forall k ensures HeldOk(x', rd.round1, rd.missing, rd.fetched, rd.chosen, k) {
        assert HeldOk(x, rd.round1, rd.missing, rd.fetched, rd.chosen, k);
      }
    }
  }

  lemma ItemsGrow(x: World, x': World)
    requires Grows(x, x')
    ensures forall item :: ItemOk(x, item) ==> ItemOk(x', item)
  {
    forall item | ItemOk(x, item) ensures ItemOk(x', item) {
      assert Prepared(x', item.key, item.ts);
    }
  }

  // ----- facts about stored versions

  lemma PreparedIsStored(x: World, k: Key, t: Timestamp)
    requires WorldInv(x) && Prepared(x, k, t)
    ensures t > 0 && (k, t) in x.store.versions
  {
    var w :| w in x.writers && PreparedBy(x.writers[w], k, t);
    assert WriterInvAt(x, w);
    var id, n :| MintedAs(x.clocks, t, id, n);
  }

  lemma FetchedIsOk(x: World, k: Key, t: Timestamp)
    requires WorldInv(x) && Prepared(x, k, t)
    ensures GetVersion(x.store, k, t).Some? && ItemOk(x, GetVersion(x.store, k, t).value)
    ensures GetVersion(x.store, k, t).value.key == k && GetVersion(x.store, k, t).value.ts == t
  {
    PreparedIsStored(x, k, t);
  }

  /** The one writer behind a version. */
  lemma OwnerOf(x: World, item: Item) returns (w: nat)
    requires WorldInv(x) && ItemOk(x, item)
    ensures w in x.writers && x.writers[w].ts == item.ts && Writes(x.writers[w].writes, item.key)
    ensures x.writers[w].prepared == |x.writers[w].writes|
    ensures item.siblings == Siblings(x.writers[w].writes, item.key)
  {
    w :| w in x.writers && PreparedBy(x.writers[w], item.key, item.ts);
    assert VersionInv(x, (item.key, item.ts));
    var v :| v in x.writers && VersionOf(x.writers[v], item.key, item.ts, x.store.versions[(item.key, item.ts)]);
    assert v == w;
  }

  lemma SiblingPrepared(x: World, item: Item, y: Key)
    requires WorldInv(x) && ItemOk(x, item) && y in item.siblings
    ensures Prepared(x, y, item.ts)
  {
    var w := OwnerOf(x, item);
    assert PreparedBy(x.writers[w], y, item.ts);
  }

  /** Two versions of one transaction name the same batch. */
  lemma SameBatch(x: World, a: Item, b: Item, y: Key)
    requires WorldInv(x) && ItemOk(x, a) && ItemOk(x, b) && a.ts == b.ts && y in a.siblings
    ensures y == b.key || y in b.siblings
  {
    var v := OwnerOf(x, a);
    var w := OwnerOf(x, b);
    assert v == w;
  }

  // ----- the second round repairs every fracture

  lemma MaxDemand(round1: seq<Item>, k: Key, i: int) returns (t: Timestamp)
    requires Demands(round1, i, k)
    ensures MustFetch(round1, k, t) && round1[i].ts <= t
  {
    var best := i;
    for j := 0 to |round1|
      invariant Demands(round1, best, k) && round1[i].ts <= round1[best].ts
      invariant forall l :: 0 <= l < j && Demands(round1, l, k) ==> round1[l].ts <= round1[best].ts
    {
      if Demands(round1, j, k) && round1[best].ts < round1[j].ts {
        best := j;
      }
    }
    t := round1[best].ts;
  }

  /** After the second round, whatever a first-round item names is held at least as new. */
  lemma SiblingHeld(x: World, round1: seq<Item>, missing: seq<Fetch>, chosen: map<Key, Item>, i: nat, y: Key)
    requires WorldInv(x) && RepairOk(x, round1, missing, |missing|, chosen) && Ordered(round1)
    requires i < |round1| && (y in round1[i].siblings || y == round1[i].key)
    ensures Holds(chosen, y, round1[i].ts)
  {
    PreparedIsStored(x, round1[i].key, round1[i].ts);
    if Seen(round1, y) < round1[i].ts {
      assert y in round1[i].siblings;
      assert Demands(round1, i, y);
      var t := MaxDemand(round1, y, i);
      assert (y, t) in missing;
      var j :| 0 <= j < |missing| && missing[j] == (y, t);
      assert Holds(chosen, missing[j].0, missing[j].1);
    } else {
      var j :| 0 <= j < |round1| && round1[j].key == y && round1[j].ts == Seen(round1, y);
      assert Holds(chosen, round1[j].key, Seen(round1, round1[j].key));
    }
  }

  lemma RepairedIsFractureFree(x: World, round1: seq<Item>, missing: seq<Fetch>, chosen: map<Key, Item>)
    requires WorldInv(x) && RepairOk(x, round1, missing, |missing|, chosen) && Ordered(round1)
    ensures FractureFree(chosen)
  {
    forall k, y | k in chosen && y in chosen[k].siblings ensures Holds(chosen, y, chosen[k].ts) {
      HeldSiblings(x, round1, missing, chosen, k, y);
    }
  }

  lemma HeldSiblings(x: World, round1: seq<Item>, missing: seq<Fetch>, chosen: map<Key, Item>, k: Key, y: Key)
    requires WorldInv(x) && RepairOk(x, round1, missing, |missing|, chosen) && Ordered(round1)
    requires k in chosen && y in chosen[k].siblings
    ensures Holds(chosen, y, chosen[k].ts)
  {
    assert HeldOk(x, round1, missing, |missing|, chosen, k);
    var item := chosen[k];
    if item in round1 {
      var i :| 0 <= i < |round1| && round1[i] == item;
      SiblingHeld(x, round1, missing, chosen, i, y);
    } else {
      var j :| 0 <= j < |missing| && missing[j] == (k, item.ts);
      assert (k, item.ts) in missing;
      assert MustFetch(round1, k, item.ts);
      var i :| Demands(round1, i, k) && round1[i].ts == item.ts;
      SameBatch(x, item, round1[i], y);
      SiblingHeld(x, round1, missing, chosen, i, y);
    }
  }

  // ----- each reader step keeps the invariant

  lemma {:induction false} OverlayHolds(round1: seq<Item>, k: Key)
    ensures k in Overlay(round1) <==> exists i :: 0 <= i < |round1| && round1[i].key == k
    ensures k in Overlay(round1) ==> Overlay(round1)[k] in round1 && Overlay(round1)[k].key == k
  {
    if round1 != [] {
      var n := |round1| - 1;
      OverlayHolds(round1[..n], k);
      if round1[n].key != k && k in Overlay(round1[..n]) {
        var i :| 0 <= i < n && round1[..n][i].key == k;
        assert round1[i].key == k;
        assert Overlay(round1[..n])[k] in round1[..n];
      }
    }
  }

  /** The last item of a key is its newest, if its versions come in order. */
  lemma {:induction false} OverlayNewest(round1: seq<Item>, k: Key)
    requires Ordered(round1) && k in Overlay(round1)
    ensures Overlay(round1)[k].ts == Seen(round1, k)
  {
    var n := |round1| - 1;
    if round1[n].key != k {
      OverlayNewest(round1[..n], k);
    } else {
      assert round1[n].ts <= Seen(round1, k);
    }
  }

  lemma OverlayChosen(x: World, round1: seq<Item>, missing: seq<Fetch>)
    requires Round1Ok(x, round1)
    ensures ChosenOk(x, round1, missing, 0, Overlay(round1))
  {
    var chosen := Overlay(round1);
    forall k ensures HeldOk(x, round1, missing, 0, chosen, k) {
      OverlayHolds(round1, k);
    }
    forall i | 0 <= i < |round1| && Ordered(round1) ensures Holds(chosen, round1[i].key, Seen(round1, round1[i].key)) {
      OverlayHolds(round1, round1[i].key);
      OverlayNewest(round1, round1[i].key);
    }
  }

  lemma PointerKeeps(x: World, calm: iset<Key>, rd: Reader, rd': Reader)
    requires WorldOk(x, calm) && ReaderInv(x, calm, rd) && ReaderMoves(x.store, rd, rd', ReadPointer)
    ensures ReaderInv(x, calm, rd')
  {
    var k := rd.keys[rd.next];
    assert PointerInv(x, k);
    assert rd.keys[..rd.next + 1] == rd.keys[..rd.next] + [k];
  }

  lemma VersionKeeps(x: World, calm: iset<Key>, rd: Reader, rd': Reader)
    requires WorldOk(x, calm) && ReaderInv(x, calm, rd) && ReaderMoves(x.store, rd, rd', ReadVersion)
    ensures ReaderInv(x, calm, rd')
  {
    FetchedIsOk(x, rd.keys[rd.next], rd.pointer.value);
    assert rd.keys[..rd.next + 1] == rd.keys[..rd.next] + [rd.keys[rd.next]];
  }

  lemma RepairStep(x: World, round1: seq<Item>, missing: seq<Fetch>, n: nat, chosen: map<Key, Item>)
    requires WorldInv(x) && RepairOk(x, round1, missing, n, chosen) && n < |missing|
    ensures GetVersion(x.store, missing[n].0, missing[n].1).Some?
    ensures RepairOk(x, round1, missing, n + 1,
                     chosen[missing[n].0 := GetVersion(x.store, missing[n].0, missing[n].1).value])
  {
    DemandIsStored(x, round1, missing, n);
    RefetchChosen(x, round1, missing, n, chosen, GetVersion(x.store, missing[n].0, missing[n].1).value);
  }

  /** A required version is always in the store: PREPARE of the whole batch came first. */
  lemma DemandIsStored(x: World, round1: seq<Item>, missing: seq<Fetch>, n: nat)
    requires WorldInv(x) && Round1Ok(x, round1) && IsRepair(round1, missing) && n < |missing|
    ensures var v := GetVersion(x.store, missing[n].0, missing[n].1);
            v.Some? && ItemOk(x, v.value) && (v.value.key, v.value.ts) == missing[n]
    ensures Seen(round1, missing[n].0) < missing[n].1
  {
    var (k, t) := missing[n];
    assert (k, t) in missing;
    assert MustFetch(round1, k, t);
    var i :| Demands(round1, i, k) && round1[i].ts == t;
    SiblingPrepared(x, round1[i], k);
    FetchedIsOk(x, k, t);
  }

  lemma RefetchChosen(x: World, round1: seq<Item>, missing: seq<Fetch>, n: nat, chosen: map<Key, Item>, item: Item)
    requires ChosenOk(x, round1, missing, n, chosen) && n < |missing|
    requires forall i, j :: 0 <= i < j < |missing| ==> Less(missing[i].0, missing[j].0)
    requires ItemOk(x, item) && (item.key, item.ts) == missing[n] && Seen(round1, item.key) < item.ts
    ensures ChosenOk(x, round1, missing, n + 1, chosen[item.key := item])
  {
    var m, chosen' := n + 1, chosen[item.key := item];
    forall k ensures HeldOk(x, round1, missing, m, chosen', k) {
      assert HeldOk(x, round1, missing, n, chosen, k);
      assert missing[n] == (item.key, item.ts);
    }
    forall i | 0 <= i < |round1| && Ordered(round1) ensures Holds(chosen', round1[i].key, Seen(round1, round1[i].key)) {
      assert Holds(chosen, round1[i].key, Seen(round1, round1[i].key));
    }
    forall j | 0 <= j < m ensures Holds(chosen', missing[j].0, missing[j].1) {
      if j < n {
        assert Holds(chosen, missing[j].0, missing[j].1);
        LessTrichotomy(missing[j].0, missing[n].0);
      }
    }
  }

  lemma FinishKeeps(x: World, calm: iset<Key>, rd: Reader, rd': Reader)
    requires WorldOk(x, calm) && ReaderInv(x, calm, rd) && ReaderMoves(x.store, rd, rd', Finish)
    ensures ReaderInv(x, calm, rd')
  {
    forall k | k in rd.chosen ensures rd.chosen[k].key == k && ItemOk(x, rd.chosen[k]) {
      assert HeldOk(x, rd.round1, rd.missing, rd.fetched, rd.chosen, k);
    }
    if Steady(rd.keys, calm) {
      RepairedIsFractureFree(x, rd.round1, rd.missing, rd.chosen);
    }
  }

  lemma ReaderKeeps(x: World, calm: iset<Key>, rd: Reader, rd': Reader, step: ReadStep)
    requires WorldOk(x, calm) && ReaderInv(x, calm, rd) && ReaderMoves(x.store, rd, rd', step)
    ensures ReaderInv(x, calm, rd')
  {
    match step
    case ReadPointer => PointerKeeps(x, calm, rd, rd');
    case ReadVersion => VersionKeeps(x, calm, rd, rd');
    case Decide(missing) => OverlayChosen(x, rd.round1, missing);
    case Refetch => RepairStep(x, rd.round1, rd.missing, rd.fetched, rd.chosen);
    case Finish => FinishKeeps(x, calm, rd, rd');
  }

  // ----- every reachable state

  ghost predicate CalmWorld(x: World, calm: iset<Key>) {
    forall k :: k in calm ==> Calm(x, k)
  }

  /** No two commits of `k` overlap anywhere in the run. */
  ghost predicate CalmRun(run: seq<State>, k: Key) {
    forall i :: 0 <= i < |run| ==> Calm(run[i].world, k)
  }

  lemma WorldKeeps(x: World, x': World, calm: iset<Key>, step: WriteStep)
    requires WorldOk(x, calm) && CalmWorld(x, calm) && WriterMoves(x, x', step)
    ensures WorldOk(x', calm) && Grows(x, x') && CalmGrows(x, x', calm)
  {
    WriterKeeps(x, x', step);
    forall k | k in calm ensures SteadyKey(x', k) && PointerGrows(x.store.pointers, x'.store.pointers, k) {
      SteadyKeeps(x, x', step, k);
    }
  }

  lemma NextKeeps(s: State, s': State, calm: iset<Key>)
    requires Inv(s, calm) && CalmWorld(s.world, calm) && Next(s, s')
    ensures Inv(s', calm) && CalmGrows(s.world, s'.world, calm)
  {
    if WriterTurn(s, s') {
      var step :| WriterMoves(s.world, s'.world, step);
      WorldKeeps(s.world, s'.world, calm, step);
      forall r | r in s'.readers ensures ReaderInv(s'.world, calm, s'.readers[r]) {
        ReaderInvGrows(s.world, s'.world, calm, s.readers[r]);
      }
    } else if ReaderArrives(s, s') {
    } else {
      var r, rd', step :| ReaderTurn(s, s', r, rd', step);
      ReaderKeeps(s.world, calm, s.readers[r], rd', step);
    }
  }

  lemma {:induction false} RunKeeps(run: seq<State>, i: nat, calm: iset<Key>)
    requires IsRun(run) && i < |run| && forall k :: k in calm ==> CalmRun(run, k)
    ensures Inv(run[i], calm)
  {
    if i > 0 {
      RunKeeps(run, i - 1, calm);
      assert StepAt(run, i - 1);
      NextKeeps(run[i - 1], run[i], calm);
    }
  }

  /** Read atomicity: in every run, however writers and readers interleave and wherever they stop, a finished
      read holds for each key a version its transaction fully prepared, and never part of a transaction, so
      long as every key it asked for twice is one whose commits did not overlap. */
  lemma ReadsAreAtomic(run: seq<State>, i: nat, r: nat)
    requires IsRun(run) && i < |run| && r in run[i].readers && run[i].readers[r].Done?
    ensures forall k :: k in run[i].readers[r].chosen ==>
      run[i].readers[r].chosen[k].key == k && ItemOk(run[i].world, run[i].readers[r].chosen[k])
    ensures Steady(run[i].readers[r].keys, iset k | CalmRun(run, k)) ==> FractureFree(run[i].readers[r].chosen)
  {
    RunKeeps(run, i, iset k | CalmRun(run, k));
  }

  /** No read ever meets a pointer or a required version without its record. */
  lemma ReadsNeverDangle(run: seq<State>, i: nat, r: nat)
    requires IsRun(run) && i < |run| && r in run[i].readers
    ensures !run[i].readers[r].Dangling?
  {
    RunKeeps(run, i, iset{});
  }

  /** The visible version of a key whose commits do not overlap only moves forward. */
  lemma {:induction false} PointersNeverRegress(run: seq<State>, i: nat, j: nat, k: Key)
    requires IsRun(run) && i <= j < |run| && CalmRun(run, k)
    ensures PointerGrows(run[i].world.store.pointers, run[j].world.store.pointers, k)
    decreases j
  {
    if i < j {
      PointersNeverRegress(run, i, j - 1, k);
      RunKeeps(run, j - 1, iset{k});
      assert StepAt(run, j - 1);
      NextKeeps(run[j - 1], run[j], iset{k});
    }
  }

  // ----- reads after a completed write

  /** Whatever was read of `k` is at `t` or later, and `k` was read if it is among the keys passed. */
  ghost predicate ReadSince(keys: seq<Key>, round1: seq<Item>, k: Key, t: Timestamp) {
    && (forall i :: 0 <= i < |round1| && round1[i].key == k ==> t <= round1[i].ts)
    && (k in keys ==> exists i :: 0 <= i < |round1| && round1[i].key == k)
  }

  ghost predicate Floor(rd: Reader, k: Key, t: Timestamp) {
    match rd
    case Fetching(keys, next, pointer, round1) =>
      && next <= |keys| && ReadSince(keys[..next], round1, k, t)
      && (pointer.Some? && next < |keys| && keys[next] == k ==> t <= pointer.value)
    case Repairing(keys, round1, _, _, chosen) => ReadSince(keys, round1, k, t) && (k in keys ==> Holds(chosen, k, t))
    case Done(keys, chosen, _) => k in keys ==> Holds(chosen, k, t)
    case Dangling(_, _) => true
  }

  ghost predicate PointerAt(x: World, k: Key, t: Timestamp) {
    k in x.store.pointers && t <= x.store.pointers[k]
  }

  lemma FloorPointer(x: World, rd: Reader, rd': Reader, k: Key, t: Timestamp)
    requires ReaderMoves(x.store, rd, rd', ReadPointer) && PointerAt(x, k, t) && Floor(rd, k, t)
    ensures Floor(rd', k, t)
  {
    assert rd.keys[..rd.next + 1] == rd.keys[..rd.next] + [rd.keys[rd.next]];
  }

  lemma FloorVersion(x: World, rd: Reader, rd': Reader, k: Key, t: Timestamp)
    requires ReaderMoves(x.store, rd, rd', ReadVersion) && Floor(rd, k, t)
    ensures Floor(rd', k, t)
  {
    assert rd.keys[..rd.next + 1] == rd.keys[..rd.next] + [rd.keys[rd.next]];
    if rd'.Fetching? {
      var n := |rd.round1|;
      assert rd'.round1[..n] == rd.round1 && rd'.round1[n].key == rd.keys[rd.next];
      if k in rd.keys[..rd.next] {
        var i :| 0 <= i < n && rd.round1[i].key == k;
        assert rd'.round1[i].key == k;
      }
    }
  }

  lemma FloorDecide(rd: Reader, k: Key, t: Timestamp)
    requires rd.Fetching? && rd.next == |rd.keys| && Floor(rd, k, t)
    ensures ReadSince(rd.keys, rd.round1, k, t) && (k in rd.keys ==> Holds(Overlay(rd.round1), k, t))
  {
    assert rd.keys[..rd.next] == rd.keys;
    OverlayHolds(rd.round1, k);
  }

  lemma FloorRefetch(x: World, rd: Reader, rd': Reader, k: Key, t: Timestamp)
    requires WorldInv(x) && rd.Repairing? && RepairOk(x, rd.round1, rd.missing, rd.fetched, rd.chosen)
    requires ReaderMoves(x.store, rd, rd', Refetch) && Floor(rd, k, t)
    ensures Floor(rd', k, t)
  {
    DemandIsStored(x, rd.round1, rd.missing, rd.fetched);
    if k in rd.keys && rd.missing[rd.fetched].0 == k {
      var i :| 0 <= i < |rd.round1| && rd.round1[i].key == k;
      assert rd.round1[i].ts <= Seen(rd.round1, k);
    }
  }

  lemma FloorStep(x: World, calm: iset<Key>, rd: Reader, rd': Reader, step: ReadStep, k: Key, t: Timestamp)
    requires WorldInv(x) && ReaderInv(x, calm, rd) && ReaderMoves(x.store, rd, rd', step)
    requires PointerAt(x, k, t) && Floor(rd, k, t)
    ensures Floor(rd', k, t)
  {
    match step
    case ReadPointer => FloorPointer(x, rd, rd', k, t);
    case ReadVersion => FloorVersion(x, rd, rd', k, t);
    case Decide(missing) => FloorDecide(rd, k, t);
    case Refetch => FloorRefetch(x, rd, rd', k, t);
    case Finish =>
  }

  lemma {:induction false} LaterReadsKeepFloor(run: seq<State>, i: nat, j: nat, r: nat, k: Key, t: Timestamp)
    requires IsRun(run) && i <= j < |run| && r !in run[i].readers && r in run[j].readers
    requires CalmRun(run, k) && PointerAt(run[i].world, k, t)
    ensures Floor(run[j].readers[r], k, t)
    decreases j
  {
    RunKeeps(run, j - 1, iset{k});
    assert StepAt(run, j - 1);
    if r in run[j - 1].readers {
      LaterReadsKeepFloor(run, i, j - 1, r, k, t);
      PointersNeverRegress(run, i, j - 1, k);
      FloorTurn(run[j - 1], run[j], iset{k}, r, k, t);
    } else {
      FreshReader(run[j - 1], run[j], r);
    }
  }

  lemma FreshReader(s: State, s': State, r: nat)
    requires Next(s, s') && r !in s.readers && r in s'.readers
    ensures s'.readers[r].Fetching? && s'.readers[r].next == 0
    ensures s'.readers[r].pointer.None? && s'.readers[r].round1 == []
  {
  }

  lemma FloorTurn(s: State, s': State, calm: iset<Key>, r: nat, k: Key, t: Timestamp)
    requires Inv(s, calm) && Next(s, s') && r in s.readers && r in s'.readers
    requires PointerAt(s.world, k, t) && Floor(s.readers[r], k, t)
    ensures Floor(s'.readers[r], k, t)
  {
    if s'.readers[r] != s.readers[r] {
      var q, rd', step :| ReaderTurn(s, s', q, rd', step);
      FloorStep(s.world, calm, s.readers[r], rd', step, k, t);
    }
  }

  /** Once a write has returned, every read that starts later and asks for one of its keys sees that write
      or a newer one, so long as the commits of that key do not overlap. */
  lemma ReadsSeeCompletedWrites(run: seq<State>, i: nat, j: nat, w: nat, r: nat, k: Key)
    requires IsRun(run) && i <= j < |run| && w in run[i].world.writers
    requires run[i].world.writers[w].committed == |run[i].world.writers[w].writes|
    requires Writes(run[i].world.writers[w].writes, k) && CalmRun(run, k)
    requires r !in run[i].readers && r in run[j].readers && run[j].readers[r].Done? && k in run[j].readers[r].keys
    ensures Holds(run[j].readers[r].chosen, k, run[i].world.writers[w].ts)
  {
    RunKeeps(run, i, iset{k});
    var x := run[i].world;
    assert SteadyKey(x, k);
    assert SteadyAt(x, k, w);
    assert CommittedBy(x.writers[w], k);
    LaterReadsKeepFloor(run, i, j, r, k, x.writers[w].ts);
  }

  // ----- when one round is enough

  /** The first round over a store nobody is writing. */
  function Round1Of(st: Store, keys: seq<Key>): (round1: seq<Item>) {
    if keys == [] then []
    else
      var n := |keys| - 1;
      var k := keys[n];
      Round1Of(st, keys[..n]) +
      (if k in st.pointers && (k, st.pointers[k]) in st.versions then [GetVersion(st, k, st.pointers[k]).value] else [])
  }

  /** Every transaction that is fully prepared has committed all of its keys. */
  ghost predicate Settled(x: World) {
    forall w :: w in x.writers && x.writers[w].prepared == |x.writers[w].writes| ==>
      x.writers[w].committed == |x.writers[w].writes|
  }

  /** Every sibling of a visible version is asked for too, and visible no older. */
  ghost predicate SelfContained(st: Store, keys: seq<Key>) {
    forall k, y :: k in keys && VisibleSibling(st, k, y) ==>
      y in keys && y in st.pointers && st.pointers[k] <= st.pointers[y]
  }

  /** The read set contains every sibling of every version it makes visible. */
  ghost predicate SiblingClosed(st: Store, keys: seq<Key>) {
    forall k, y :: k in keys && VisibleSibling(st, k, y) ==> y in keys
  }

  ghost predicate VisibleSibling(st: Store, k: Key, y: Key) {
    && k in st.pointers && (k, st.pointers[k]) in st.versions
    && y in st.versions[(k, st.pointers[k])].siblings
  }

  lemma {:induction false} Round1Items(x: World, keys: seq<Key>, y: Key)
    requires WorldInv(x)
    ensures forall i :: 0 <= i < |Round1Of(x.store, keys)| ==> VisibleItem(x.store, keys, Round1Of(x.store, keys)[i])
    ensures Seen(Round1Of(x.store, keys), y) ==
      if y in keys && y in x.store.pointers then x.store.pointers[y] else 0
    ensures y in keys && y in x.store.pointers ==>
      exists i :: 0 <= i < |Round1Of(x.store, keys)| && Round1Of(x.store, keys)[i].key == y
  {
    if keys != [] {
      var n := |keys| - 1;
      var k := keys[n];
      Round1Items(x, keys[..n], y);
      assert keys == keys[..n] + [k];
      if k in x.store.pointers {
        assert PointerInv(x, k);
        FetchedIsOk(x, k, x.store.pointers[k]);
        var before := Round1Of(x.store, keys[..n]);
        var item := GetVersion(x.store, k, x.store.pointers[k]).value;
        assert Round1Of(x.store, keys) == before + [item];
        assert (before + [item])[..|before|] == before;
        assert (before + [item])[|before|].key == k;
        assert forall i :: 0 <= i < |before| ==> (before + [item])[i] == before[i];
      } else {
        assert Round1Of(x.store, keys) == Round1Of(x.store, keys[..n]);
      }
    }
  }

  ghost predicate VisibleItem(st: Store, keys: seq<Key>, item: Item) {
    && item.key in keys && item.key in st.pointers && item.ts == st.pointers[item.key]
    && (item.key, item.ts) in st.versions
    && st.versions[(item.key, item.ts)] == Body(item.siblings, item.value)
  }

  /** Whatever writers are doing, a read of the store as it stands skips the second round exactly when the
      visible versions of its keys already contain all of their siblings. */
  lemma OneRoundIff(x: World, keys: seq<Key>)
    requires WorldInv(x)
    ensures IsRepair(Round1Of(x.store, keys), []) <==> SelfContained(x.store, keys)
  {
    var round1 := Round1Of(x.store, keys);
    if SelfContained(x.store, keys) {
      forall k: Key, t: Timestamp ensures !MustFetch(round1, k, t) {
        forall i ensures !Demands(round1, i, k) {
          if 0 <= i < |round1| && k in round1[i].siblings {
            ContainedMeetsDemand(x, keys, i, k);
          }
        }
      }
    } else {
      var k, y :| k in keys && VisibleSibling(x.store, k, y) &&
        !(y in keys && y in x.store.pointers && x.store.pointers[k] <= x.store.pointers[y]);
      OutsideSiblingDemanded(x, keys, k, y);
    }
  }

  lemma ContainedMeetsDemand(x: World, keys: seq<Key>, i: nat, y: Key)
    requires WorldInv(x) && SelfContained(x.store, keys)
    requires i < |Round1Of(x.store, keys)| && y in Round1Of(x.store, keys)[i].siblings
    ensures !Demands(Round1Of(x.store, keys), i, y)
  {
    var item := Round1Of(x.store, keys)[i];
    Round1Items(x, keys, y);
    assert VisibleItem(x.store, keys, item);
    assert VisibleSibling(x.store, item.key, y);
  }

  lemma OutsideSiblingDemanded(x: World, keys: seq<Key>, k: Key, y: Key)
    requires WorldInv(x) && k in keys && VisibleSibling(x.store, k, y)
    requires !(y in keys && y in x.store.pointers && x.store.pointers[k] <= x.store.pointers[y])
    ensures !IsRepair(Round1Of(x.store, keys), [])
  {
    var round1 := Round1Of(x.store, keys);
    Round1Items(x, keys, k);
    Round1Items(x, keys, y);
    var i :| 0 <= i < |round1| && round1[i].key == k;
    assert VisibleItem(x.store, keys, round1[i]);
    assert PointerInv(x, k);
    PreparedIsStored(x, k, x.store.pointers[k]);
    assert Demands(round1, i, y);
    var t := MaxDemand(round1, y, i);
    assert MustFetch(round1, y, t);
  }

  /** In a run whose commits do not overlap, once every fully prepared transaction is committed (others may have
      stopped anywhere), the second round is skipped exactly when the read set is closed under the siblings of
      its visible versions. */
  lemma OneRoundIffClosed(run: seq<State>, i: nat, keys: seq<Key>)
    requires IsRun(run) && i < |run| && Settled(run[i].world) && forall k :: CalmRun(run, k)
    ensures IsRepair(Round1Of(run[i].world.store, keys), []) <==> SiblingClosed(run[i].world.store, keys)
  {
    var x := run[i].world;
    RunKeeps(run, i, iset k | CalmRun(run, k));
    OneRoundIff(x, keys);
    forall k, y | VisibleSibling(x.store, k, y)
      ensures y in x.store.pointers && x.store.pointers[k] <= x.store.pointers[y]
    {
      SettledSibling(x, k, y);
    }
  }

  /** A committed transaction's keys are all visible at its stamp or later. */
  lemma SettledSibling(x: World, k: Key, y: Key)
    requires WorldInv(x) && Settled(x) && SteadyKey(x, y) && VisibleSibling(x.store, k, y)
    ensures y in x.store.pointers && x.store.pointers[k] <= x.store.pointers[y]
  {
    var t := x.store.pointers[k];
    assert PointerInv(x, k);
    var w := OwnerOf(x, Item(k, t, x.store.versions[(k, t)].siblings, x.store.versions[(k, t)].value));
    assert WriterInvAt(x, w);
    assert SteadyAt(x, y, w);
    assert CommittedBy(x.writers[w], y);
  }
}
