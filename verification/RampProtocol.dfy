/** RAMP-Fast as an interleaved protocol: any number of writers and readers, one store operation per step,
    every process free to stop between any two steps. */
module RampProtocol {
  import opened Bytes
  import opened Collections
  import opened RampCore

  // ----- the versioned store

  datatype Body = Body(siblings: seq<Key>, value: Value)

  datatype Store = Store(versions: map<Fetch, Body>, pointers: map<Key, Timestamp>)

  function PutVersion(st: Store, item: Item): Store {
    st.(versions := st.versions[(item.key, item.ts) := Body(item.siblings, item.value)])
  }

  /** A commit that nothing comes between: the visible version of a key never moves backwards. */
  function CommitPointer(st: Store, k: Key, ts: Timestamp): Store {
    if k in st.pointers && st.pointers[k] >= ts then st else st.(pointers := st.pointers[k := ts])
  }

  function SetPointer(st: Store, k: Key, ts: Timestamp): Store {
    st.(pointers := st.pointers[k := ts])
  }

  function LatestVisible(st: Store, k: Key): Option<Timestamp> {
    if k in st.pointers then Some(st.pointers[k]) else None
  }

  function GetVersion(st: Store, k: Key, ts: Timestamp): Option<Item> {
    if (k, ts) in st.versions then Some(Item(k, ts, st.versions[(k, ts)].siblings, st.versions[(k, ts)].value))
    else None
  }

  // ----- writers

  datatype Write = Write(key: Key, value: Value)

  predicate Writes(writes: seq<Write>, k: Key) {
    exists i :: 0 <= i < |writes| && writes[i].key == k
  }

  /** The other keys of the batch, in batch order. */
  function Siblings(writes: seq<Write>, k: Key): (ss: seq<Key>)
    ensures forall y :: y in ss <==> Writes(writes, y) && y != k
  {
    if writes == [] then []
    else
      var n := |writes| - 1;
      var before := Siblings(writes[..n], k);
      assert forall y :: Writes(writes, y) <==> Writes(writes[..n], y) || y == writes[n].key;
      if writes[n].key == k then before else before + [writes[n].key]
  }

  /** Siblings are in batch order, one for every write of another key. */
  lemma {:induction false} SiblingsInOrder(a: seq<Write>, b: seq<Write>, k: Key)
    ensures Siblings(a + b, k) == Siblings(a, k) + Siblings(b, k)
    ensures |b| == 1 ==> Siblings(b, k) == if b[0].key == k then [] else [b[0].key]
  {
    if b == [] {
      assert a + b == a;
    } else {
      var init, last := b[..|b| - 1], b[|b| - 1];
      assert b == init + [last] && a + b == (a + init) + [last];
      SiblingsInOrder(a, init, k);
      SiblingsLast(init, last, k);
      SiblingsLast(a + init, last, k);
    }
  }

  lemma SiblingsLast(ws: seq<Write>, w: Write, k: Key)
    ensures Siblings(ws + [w], k) == Siblings(ws, k) + if w.key == k then [] else [w.key]
  {
    assert (ws + [w])[..|ws|] == ws;
  }

  /** `prepared` versions are written, then `committed` keys are committed. A commit reads the pointer and then
      writes it, under two separate locks; `putting` is being between the two. */
  datatype Writer = Writer(ts: Timestamp, writes: seq<Write>, prepared: nat, committed: nat, putting: bool)

  function PreparedItem(w: Writer, i: nat): Item
    requires i < |w.writes|
  {
    Item(w.writes[i].key, w.ts, Siblings(w.writes, w.writes[i].key), w.writes[i].value)
  }

  // ----- readers

  datatype Reader =
    | Fetching(keys: seq<Key>, next: nat, pointer: Option<Timestamp>, round1: seq<Item>)
    | Repairing(keys: seq<Key>, round1: seq<Item>, missing: seq<Fetch>, fetched: nat, chosen: map<Key, Item>)
    | Done(keys: seq<Key>, chosen: map<Key, Item>, rounds: nat)
    | Dangling(key: Key, ts: Timestamp)

  /** The first-round items by key; a repeated key keeps its last item. */
  function Overlay(round1: seq<Item>): map<Key, Item> {
    if round1 == [] then map[]
    else Overlay(round1[..|round1| - 1])[round1[|round1| - 1].key := round1[|round1| - 1]]
  }

  function Snapshot(chosen: map<Key, Item>): map<Key, Value> {
    map k | k in chosen :: chosen[k].value
  }

  // ----- the global state

  datatype World = World(store: Store, clocks: map<nat, nat>, writers: map<nat, Writer>)

  datatype State = State(world: World, readers: map<nat, Reader>)

  function Counter(clocks: map<nat, nat>, id: nat): nat {
    if id in clocks then clocks[id] else 0
  }

  // ----- steps

  datatype WriteStep =
    | Begin(w: nat, id: nat, writes: seq<Write>)
    | Prepare(w: nat)
    | Compare(w: nat)
    | Put(w: nat)

  datatype ReadStep =
    | ReadPointer
    | ReadVersion
    | Decide(missing: seq<Fetch>)
    | Refetch
    | Finish

  ghost predicate WriterMoves(x: World, x': World, step: WriteStep) {
    match step
    case Begin(w, id, writes) =>
      && w !in x.writers && writes != [] && id < U16 && Counter(x.clocks, id) + 1 < U48
      && var n := Counter(x.clocks, id) + 1;
      x' == x.(clocks := x.clocks[id := n], writers := x.writers[w := Writer(Stamp(id, n), writes, 0, 0, false)])
    case Prepare(w) =>
      && w in x.writers && x.writers[w].prepared < |x.writers[w].writes|
      && var wr := x.writers[w];
      x' == x.(store := PutVersion(x.store, PreparedItem(wr, wr.prepared)),
               writers := x.writers[w := wr.(prepared := wr.prepared + 1)])
    case Compare(w) =>
      && w in x.writers && x.writers[w].prepared == |x.writers[w].writes|
      && x.writers[w].committed < |x.writers[w].writes| && !x.writers[w].putting
      && var wr := x.writers[w];
      var current := LatestVisible(x.store, wr.writes[wr.committed].key);
      x' == x.(writers := x.writers[w := if current.Some? && current.value >= wr.ts
                                         then wr.(committed := wr.committed + 1) else wr.(putting := true)])
    case Put(w) =>
      && w in x.writers && x.writers[w].putting && x.writers[w].committed < |x.writers[w].writes|
      && var wr := x.writers[w];
      x' == x.(store := SetPointer(x.store, wr.writes[wr.committed].key, wr.ts),
               writers := x.writers[w := wr.(committed := wr.committed + 1, putting := false)])
  }

  ghost predicate ReaderMoves(st: Store, rd: Reader, rd': Reader, step: ReadStep) {
    match step
    case ReadPointer =>
      && rd.Fetching? && rd.next < |rd.keys| && rd.pointer.None?
      && (match LatestVisible(st, rd.keys[rd.next])
          case None => rd' == rd.(next := rd.next + 1)
          case Some(ts) => rd' == rd.(pointer := Some(ts)))
    case ReadVersion =>
      && rd.Fetching? && rd.next < |rd.keys| && rd.pointer.Some?
      && (match GetVersion(st, rd.keys[rd.next], rd.pointer.value)
          case None => rd' == Dangling(rd.keys[rd.next], rd.pointer.value)
          case Some(item) => rd' == rd.(next := rd.next + 1, pointer := None, round1 := rd.round1 + [item]))
    case Decide(missing) =>
      && rd.Fetching? && rd.next == |rd.keys| && IsRepair(rd.round1, missing)
      && rd' == Repairing(rd.keys, rd.round1, missing, 0, Overlay(rd.round1))
    case Refetch =>
      && rd.Repairing? && rd.fetched < |rd.missing|
      && (match GetVersion(st, rd.missing[rd.fetched].0, rd.missing[rd.fetched].1)
          case None => rd' == Dangling(rd.missing[rd.fetched].0, rd.missing[rd.fetched].1)
          case Some(item) =>
            rd' == rd.(fetched := rd.fetched + 1, chosen := rd.chosen[rd.missing[rd.fetched].0 := item]))
    case Finish =>
      && rd.Repairing? && rd.fetched == |rd.missing|
      && rd' == Done(rd.keys, rd.chosen, if rd.missing == [] then 1 else 2)
  }

  ghost predicate Init(s: State) {
    s == State(World(Store(map[], map[]), map[], map[]), map[])
  }

  ghost predicate WriterTurn(s: State, s': State) {
    s'.readers == s.readers && WriterNext(s.world, s'.world)
  }

  ghost predicate ReaderArrives(s: State, s': State) {
    s'.world == s.world &&
    exists r: nat, keys :: r !in s.readers && s'.readers == s.readers[r := Fetching(keys, 0, None, [])]
  }

  ghost predicate ReaderTurn(s: State, s': State, r: nat, rd': Reader, step: ReadStep) {
    && s'.world == s.world && r in s.readers
    && ReaderMoves(s.world.store, s.readers[r], rd', step) && s'.readers == s.readers[r := rd']
  }

  ghost predicate Next(s: State, s': State) {
    WriterTurn(s, s') || ReaderArrives(s, s') || exists r, rd', step :: ReaderTurn(s, s', r, rd', step)
  }

  ghost predicate StepAt(run: seq<State>, i: nat) {
    i + 1 < |run| ==> Next(run[i], run[i + 1])
  }

  ghost predicate IsRun(run: seq<State>) {
    && |run| > 0 && Init(run[0])
    && forall i: nat :: StepAt(run, i)
  }

  // ----- what every step keeps, on the writers' side

  /** Transaction `t` wrote `k`, and all of its versions are in the store. */
  ghost predicate Prepared(x: World, k: Key, t: Timestamp) {
    exists w :: w in x.writers && PreparedBy(x.writers[w], k, t)
  }

  ghost predicate PreparedBy(wr: Writer, k: Key, t: Timestamp) {
    wr.ts == t && wr.prepared == |wr.writes| && Writes(wr.writes, k)
  }

  ghost predicate Minted(clocks: map<nat, nat>, t: Timestamp) {
    exists id, n :: MintedAs(clocks, t, id, n)
  }

  ghost predicate MintedAs(clocks: map<nat, nat>, t: Timestamp, id: nat, n: nat) {
    id < U16 && 0 < n <= Counter(clocks, id) < U48 && t == Stamp(id, n)
  }

  ghost predicate WriterInv(x: World, wr: Writer) {
    && wr.prepared <= |wr.writes| && wr.committed <= |wr.writes|
    && (wr.committed > 0 || wr.putting ==> wr.prepared == |wr.writes|)
    && (wr.putting ==> wr.committed < |wr.writes|)
    && Minted(x.clocks, wr.ts)
    && forall i :: 0 <= i < wr.prepared ==> (wr.writes[i].key, wr.ts) in x.store.versions
  }

  /** The version of `k` at `t` is the one writer `wr` prepares: its siblings are the rest of the batch. */
  ghost predicate VersionOf(wr: Writer, k: Key, t: Timestamp, body: Body) {
    && wr.ts == t && Writes(wr.writes, k) && body.siblings == Siblings(wr.writes, k)
    && exists i :: 0 <= i < |wr.writes| && wr.writes[i] == Write(k, body.value)
  }

  ghost predicate VersionInv(x: World, f: Fetch) {
    f in x.store.versions ==> exists w :: w in x.writers && VersionOf(x.writers[w], f.0, f.1, x.store.versions[f])
  }

  ghost predicate WriterInvAt(x: World, w: nat) {
    w in x.writers ==> WriterInv(x, x.writers[w])
  }

  ghost predicate PointerInv(x: World, k: Key) {
    k in x.store.pointers ==> Prepared(x, k, x.store.pointers[k])
  }

  ghost predicate UniqueStamps(x: World) {
    forall v, w :: v in x.writers && w in x.writers && v != w ==> x.writers[v].ts != x.writers[w].ts
  }

  ghost predicate WorldInv(x: World) {
    && (forall w :: WriterInvAt(x, w))
    && UniqueStamps(x)
    && (forall f :: VersionInv(x, f))
    && (forall k :: PointerInv(x, k))
  }

  /** A later world: prepared transactions stay and keep their versions. */
  ghost predicate Grows(x: World, x': World) {
    && (forall k: Key, t: Timestamp :: Prepared(x, k, t) ==> Prepared(x', k, t))
    && (forall k: Key, t: Timestamp :: Prepared(x, k, t) && (k, t) in x.store.versions ==>
          (k, t) in x'.store.versions && x'.store.versions[(k, t)] == x.store.versions[(k, t)])
  }

  ghost predicate Advanced(wr: Writer, wr': Writer) {
    wr'.ts == wr.ts && wr'.writes == wr.writes && wr.prepared <= wr'.prepared <= |wr.writes|
  }

  ghost predicate SameVersion(x: World, x': World, f: Fetch) {
    f in x.store.versions && f in x'.store.versions && x'.store.versions[f] == x.store.versions[f]
  }

  lemma WriterInvGrows(x: World, x': World, wr: Writer)
    requires WriterInv(x, wr) && x'.clocks == x.clocks
    requires x.store.versions.Keys <= x'.store.versions.Keys
    ensures WriterInv(x', wr)
  {
  }

  /** Writers advance without changing batch or timestamp, so nothing they did is undone. */
  lemma WritersAdvance(x: World, x': World)
    requires forall v :: v in x.writers ==> v in x'.writers && Advanced(x.writers[v], x'.writers[v])
    ensures forall k: Key, t: Timestamp :: Prepared(x, k, t) ==> Prepared(x', k, t)
    ensures forall f :: VersionInv(x, f) && SameVersion(x, x', f) ==> VersionInv(x', f)
  {
    forall k: Key, t: Timestamp | Prepared(x, k, t) ensures Prepared(x', k, t) {
      var v :| v in x.writers && PreparedBy(x.writers[v], k, t);
      assert PreparedBy(x'.writers[v], k, t);
    }
    forall f | VersionInv(x, f) && SameVersion(x, x', f) ensures VersionInv(x', f) {
      var v :| v in x.writers && VersionOf(x.writers[v], f.0, f.1, x.store.versions[f]);
      assert VersionOf(x'.writers[v], f.0, f.1, x'.store.versions[f]);
    }
  }

  /** A fresh stamp differs from every stamp handed out before. */
  lemma FreshStamp(clocks: map<nat, nat>, id: nat, t: Timestamp)
    requires id < U16 && Counter(clocks, id) + 1 < U48 && Minted(clocks, t)
    ensures t != Stamp(id, Counter(clocks, id) + 1)
    ensures Minted(clocks[id := Counter(clocks, id) + 1], t)
  {
    var id', n' :| MintedAs(clocks, t, id', n');
    assert MintedAs(clocks[id := Counter(clocks, id) + 1], t, id', n');
    StampsCollideIff(id, Counter(clocks, id) + 1, id', n');
  }

  lemma BeginStamps(x: World, x': World, w: nat, id: nat, writes: seq<Write>)
    requires WorldInv(x) && WriterMoves(x, x', Begin(w, id, writes))
    ensures UniqueStamps(x') && forall v :: v in x'.writers ==> Minted(x'.clocks, x'.writers[v].ts)
  {
    var n := Counter(x.clocks, id) + 1;
    assert MintedAs(x'.clocks, Stamp(id, n), id, n);
    forall v | v in x.writers ensures Minted(x'.clocks, x.writers[v].ts) && x.writers[v].ts != Stamp(id, n) {
      assert WriterInvAt(x, v);
      FreshStamp(x.clocks, id, x.writers[v].ts);
    }
  }

  lemma BeginKeeps(x: World, x': World, w: nat, id: nat, writes: seq<Write>)
    requires WorldInv(x) && WriterMoves(x, x', Begin(w, id, writes))
    ensures WorldInv(x') && Grows(x, x')
  {
    BeginStamps(x, x', w, id, writes);
    forall v | v in x.writers ensures Advanced(x.writers[v], x'.writers[v]) {
      assert WriterInvAt(x, v);
    }
    WritersAdvance(x, x');
    forall v ensures WriterInvAt(x', v) {
      assert WriterInvAt(x, v);
    }
    forall f ensures VersionInv(x', f) {
      assert VersionInv(x, f);
      assert f in x.store.versions ==> SameVersion(x, x', f);
    }
    forall k ensures PointerInv(x', k) {
      assert PointerInv(x, k);
    }
  }

  lemma PrepareKeeps(x: World, x': World, w: nat)
    requires WorldInv(x) && WriterMoves(x, x', Prepare(w))
    ensures WorldInv(x') && Grows(x, x')
  {
    var wr := x.writers[w];
    var item := PreparedItem(wr, wr.prepared);
    forall v | v in x.writers ensures Advanced(x.writers[v], x'.writers[v]) {
      assert WriterInvAt(x, v);
    }
    WritersAdvance(x, x');
    forall k: Key, t: Timestamp | Prepared(x, k, t) ensures (k, t) != (item.key, item.ts) {
      var v :| v in x.writers && PreparedBy(x.writers[v], k, t);
      assert v != w;
    }
    forall v ensures WriterInvAt(x', v) {
      assert WriterInvAt(x, v);
      if v in x.writers {
        WriterInvGrows(x, x', x.writers[v]);
      }
    }
    forall f ensures VersionInv(x', f) {
      assert VersionInv(x, f);
      if f == (item.key, item.ts) {
        assert wr.writes[wr.prepared] == Write(item.key, item.value);
        assert VersionOf(x'.writers[w], f.0, f.1, x'.store.versions[f]);
      } else {
        assert f in x.store.versions ==> SameVersion(x, x', f);
      }
    }
    forall k ensures PointerInv(x', k) {
      assert PointerInv(x, k);
    }
  }

  /** Reading the pointer or writing it keeps pointers on fully prepared transactions, whoever comes between. */
  lemma CommitKeeps(x: World, x': World, w: nat, step: WriteStep)
    requires WorldInv(x) && WriterMoves(x, x', step) && (step == Compare(w) || step == Put(w))
    ensures WorldInv(x') && Grows(x, x')
  {
    var wr := x.writers[w];
    assert WriterInvAt(x, w);
    var k0 := wr.writes[wr.committed].key;
    forall v | v in x.writers ensures Advanced(x.writers[v], x'.writers[v]) {
      assert WriterInvAt(x, v);
    }
    WritersAdvance(x, x');
    forall v ensures WriterInvAt(x', v) {
      assert WriterInvAt(x, v);
      if v in x.writers {
        WriterInvGrows(x, x', x.writers[v]);
      }
    }
    forall f ensures VersionInv(x', f) {
      assert VersionInv(x, f);
      assert f in x.store.versions ==> SameVersion(x, x', f);
    }
    assert PreparedBy(x'.writers[w], k0, wr.ts);
    forall k ensures PointerInv(x', k) {
      assert PointerInv(x, k);
    }
  }

  lemma WriterKeeps(x: World, x': World, step: WriteStep)
    requires WorldInv(x) && WriterMoves(x, x', step)
    ensures WorldInv(x') && Grows(x, x')
  {
    match step
    case Begin(w, id, writes) => BeginKeeps(x, x', w, id, writes);
    case Prepare(w) => PrepareKeeps(x, x', w);
    case Compare(w) => CommitKeeps(x, x', w, step);
    case Put(w) => CommitKeeps(x, x', w, step);
  }

  lemma GrowsTransitive(a: World, b: World, c: World)
    requires WorldInv(a) && Grows(a, b) && Grows(b, c)
    ensures Grows(a, c)
  {
    forall k: Key, t: Timestamp | Prepared(a, k, t) && (k, t) in a.store.versions
      ensures (k, t) in c.store.versions && c.store.versions[(k, t)] == a.store.versions[(k, t)]
    {
      assert Prepared(b, k, t);
    }
  }

  ghost predicate WriterNext(x: World, x': World) {
    exists step :: WriterMoves(x, x', step)
  }

  /** Consecutive writer steps. */
  ghost predicate WriterStepAt(path: seq<World>, i: nat) {
    i + 1 < |path| ==> WriterNext(path[i], path[i + 1])
  }

  ghost predicate WriterPath(path: seq<World>, x: World, x': World) {
    |path| > 0 && path[0] == x && path[|path| - 1] == x' && forall i: nat :: WriterStepAt(path, i)
  }

  lemma PathExtends(path: seq<World>, x: World, x': World, x'': World, step: WriteStep)
    requires WriterPath(path, x, x') && WriterMoves(x', x'', step)
    ensures WriterPath(path + [x''], x, x'')
  {
    var path' := path + [x''];
    forall i: nat ensures WriterStepAt(path', i) {
      assert WriterStepAt(path, i);
    }
  }

  lemma {:induction false} PathKeeps(path: seq<World>, x: World, x': World)
    requires WorldInv(x) && WriterPath(path, x, x')
    ensures WorldInv(x') && Grows(x, x')
    decreases |path|
  {
    var n := |path| - 1;
    if n > 0 {
      var before := path[..n];
      forall i: nat ensures WriterStepAt(before, i) {
        assert WriterStepAt(path, i);
      }
      PathKeeps(before, x, path[n - 1]);
      assert WriterStepAt(path, n - 1);
      var step :| WriterMoves(path[n - 1], path[n], step);
      WriterKeeps(path[n - 1], x', step);
      GrowsTransitive(x, path[n - 1], x');
    }
  }

  // ----- commits of one key that do not overlap

  /** Writer `w` has read the pointer of `k` and is about to write it. */
  ghost predicate Putting(x: World, w: nat, k: Key) {
    && w in x.writers && x.writers[w].putting
    && x.writers[w].committed < |x.writers[w].writes|
    && x.writers[w].writes[x.writers[w].committed].key == k
  }

  /** No two writers are between reading and writing the pointer of `k`. */
  ghost predicate Calm(x: World, k: Key) {
    forall v, w :: Putting(x, v, k) && Putting(x, w, k) ==> v == w
  }

  ghost predicate CommittedBy(wr: Writer, k: Key) {
    exists i :: 0 <= i < wr.committed && i < |wr.writes| && wr.writes[i].key == k
  }

  /** The pointer of `k` is where it should be: at or past every commit of `k`, and behind every commit of `k`
      about to be written. */
  ghost predicate SteadyAt(x: World, k: Key, w: nat) {
    && (w in x.writers && CommittedBy(x.writers[w], k) ==>
          k in x.store.pointers && x.writers[w].ts <= x.store.pointers[k])
    && (Putting(x, w, k) && k in x.store.pointers ==> x.store.pointers[k] < x.writers[w].ts)
  }

  ghost predicate SteadyKey(x: World, k: Key) {
    forall w :: SteadyAt(x, k, w)
  }

  ghost predicate PointerGrows(p: map<Key, Timestamp>, p': map<Key, Timestamp>, k: Key) {
    k in p ==> k in p' && p[k] <= p'[k]
  }

  lemma SteadyKeeps(x: World, x': World, step: WriteStep, k: Key)
    requires WorldInv(x) && WriterMoves(x, x', step) && SteadyKey(x, k) && Calm(x, k)
    ensures SteadyKey(x', k) && PointerGrows(x.store.pointers, x'.store.pointers, k)
  {
    if step.Put? {
      assert SteadyAt(x, k, step.w);
    }
    forall w ensures SteadyAt(x', k, w) {
      assert SteadyAt(x, k, w);
      SteadyStep(x, x', step, k, w);
    }
  }

  lemma SteadyStep(x: World, x': World, step: WriteStep, k: Key, w: nat)
    requires WorldInv(x) && WriterMoves(x, x', step) && SteadyAt(x, k, w) && Calm(x, k)
    requires step.Put? ==> SteadyAt(x, k, step.w)
    ensures SteadyAt(x', k, w)
  {
    if w in x'.writers && CommittedBy(x'.writers[w], k) && w in x.writers {
      var wr, wr' := x.writers[w], x'.writers[w];
      var i :| 0 <= i < wr'.committed && i < |wr'.writes| && wr'.writes[i].key == k;
      assert i < wr.committed ==> CommittedBy(wr, k);
    }
    if step.Put? && Putting(x', w, k) {
      PutIsAlone(x, x', step.w, k, w);
    }
  }

  /** While one writer is about to write the pointer of `k`, nobody else writes it. */
  lemma PutIsAlone(x: World, x': World, v: nat, k: Key, w: nat)
    requires WriterMoves(x, x', Put(v)) && Calm(x, k) && Putting(x', w, k)
    ensures Putting(x, w, k) && LatestVisible(x'.store, k) == LatestVisible(x.store, k)
  {
    assert w != v;
    assert Putting(x, w, k);
    assert !Putting(x, v, k);
  }
}
