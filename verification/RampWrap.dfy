/** A coordinator whose counter wraps: its write is stored at stamp 0, and a read of it is fractured. */
module RampWrap {
  import opened Bytes
  import opened Collections
  import opened RampCore
  import opened RampProtocol
  import opened RampReads
  import opened RampRaces
  import opened RampStore

  /** Coordinator 0 can mint any number of stamps that its counter has room for. */
  lemma {:induction false} CounterReaches(n: nat) returns (run: seq<State>)
    requires n < U48
    ensures IsRun(run) && Counter(Last(run).world.clocks, 0) == n && Last(run).world.store == Store(map[], map[])
    ensures forall w :: w in Last(run).world.writers ==> w < n
    decreases n
  {
    if n == 0 {
      run := [State(World(Store(map[], map[]), map[], map[]), map[])];
    } else {
      run := CounterReaches(n - 1);
      var x, writes := Last(run).world, [Write([], V)];
      run := Writes1(run, Begin(n - 1, 0, writes),
                     x.(clocks := x.clocks[0 := n],
                        writers := x.writers[n - 1 := Writer(Stamp(0, n), writes, 0, 0, false)]));
    }
  }

  function TwoKeys(x: Key, y: Key, v: Value): seq<Write> {
    [Write(x, v), Write(y, v)]
  }

  /** What a write of two keys at stamp 0 leaves visible under the first. */
  lemma StoredAtZero(st: Store, x: Key, y: Key, v: Value)
    requires x != y && x !in st.pointers
    ensures var st' := CommitAll(PrepareAll(st, 0, TwoKeys(x, y, v), 2), 0, TwoKeys(x, y, v), 2);
      Round1Of(st', [x]) == [Item(x, 0, [y], v)] && AllVisible(st', [x])
  {
    var writes := TwoKeys(x, y, v);
    var prepared := PrepareAll(st, 0, writes, |writes|);
    assert writes[..|writes|] == writes && writes[0].key == x;
    PrepareAllVersions(st, 0, writes, |writes|, x, 0);
    CommitAllPointers(prepared, 0, writes, |writes|, x);
    OneSibling(x, y, v);
    OneVisible(CommitAll(prepared, 0, writes, |writes|), x, 0);
  }

  lemma OneVisible(st: Store, x: Key, t: Timestamp)
    requires x in st.pointers && st.pointers[x] == t && (x, t) in st.versions
    ensures Round1Of(st, [x]) == [Item(x, t, st.versions[(x, t)].siblings, st.versions[(x, t)].value)]
    ensures AllVisible(st, [x])
  {
    assert [x][..0] == [];
  }

  lemma OneSibling(x: Key, y: Key, v: Value)
    requires x != y
    ensures Siblings(TwoKeys(x, y, v), x) == [y] && LastValue(TwoKeys(x, y, v), x) == v
  {
    var writes := TwoKeys(x, y, v);
    assert writes[..1] == [Write(x, v)] && writes[..1][..0] == [];
    assert Siblings(writes[..1], x) == [];
  }

  /** A version at stamp 0 demands no sibling: a read of it alone is fractured. */
  lemma ZeroDemandsNothing(x: Key, y: Key, v: Value)
    requires x != y
    ensures IsRepair([Item(x, 0, [y], v)], []) && !FractureFree(Overlay([Item(x, 0, [y], v)]))
  {
    var round1 := [Item(x, 0, [y], v)];
    assert round1[..0] == [];
    assert Overlay(round1) == map[x := round1[0]];
    assert y in Overlay(round1)[x].siblings && !Holds(Overlay(round1), y, 0);
  }

  /** Whatever the store holds otherwise: the write that wraps coordinator 0's counter is stored at stamp 0, and a read
      of its first key right after it is fractured. */
  method WrapThenRead(c: RampCoordinator, x: Key, y: Key, v: Value)
    returns (ts: Option<Timestamp>, r: ReadResult, ghost chosen: map<Key, Item>)
    requires c.Valid() && c.clock.id == 0 && c.clock.counter == U48 - 1 && AllFit(c.store.model)
    requires x != y && |x| < U32 && |y| < U32 && x !in c.store.model.pointers
    modifies c, c.store, c.clock
    ensures ts == Some(0) && r.Read? && r.values == Snapshot(chosen) && !FractureFree(chosen)
  {
    var writes := TwoKeys(x, y, v);
    ghost var before := c.store.model;
    ts := c.Write(writes);
    StoredAtZero(before, x, y, v);
    ZeroDemandsNothing(x, y, v);
    r, chosen := ReadRounds(c.store, [x], c.world);
  }
}
