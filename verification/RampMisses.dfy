/** What an overlap costs: from every state in which two commits of a key overlap, the newer write can complete and
    still be missed by a read that starts later. */
module RampMisses {
  import opened Collections
  import opened RampCore
  import opened RampProtocol
  import opened RampReads
  import opened RampRaces

  // ----- the newer write completes

  ghost predicate Returned(x: World, w: nat) {
    w in x.writers && x.writers[w].committed == |x.writers[w].writes|
  }

  /** Everything but writer `w` and the pointers is as before. */
  ghost predicate Aside(x: World, x': World, w: nat) {
    && x'.store.versions == x.store.versions && x'.clocks == x.clocks && x'.writers.Keys == x.writers.Keys
    && (forall v :: v in x.writers && v != w ==> x'.writers[v] == x.writers[v])
    && w in x.writers && x'.writers[w].ts == x.writers[w].ts && x'.writers[w].writes == x.writers[w].writes
  }

  /** A writer reads its next pointer and, if it is behind, writes it. */
  lemma CommitsNext(run: seq<State>, w: nat) returns (run': seq<State>)
    requires IsRun(run) && w in Last(run).world.writers
    requires var wr := Last(run).world.writers[w];
      wr.prepared == |wr.writes| && wr.committed < |wr.writes| && !wr.putting
    ensures IsRun(run') && run <= run' && Last(run').readers == Last(run).readers
    ensures Aside(Last(run).world, Last(run').world, w)
    ensures var wr, wr' := Last(run).world.writers[w], Last(run').world.writers[w];
      wr'.prepared == wr.prepared && wr'.committed == wr.committed + 1 && !wr'.putting
  {
    var x, wr := Last(run).world, Last(run).world.writers[w];
    var current := LatestVisible(x.store, wr.writes[wr.committed].key);
    if current.Some? && current.value >= wr.ts {
      run' := Writes1(run, Compare(w), x.(writers := x.writers[w := wr.(committed := wr.committed + 1)]));
    } else {
      var x1 := x.(writers := x.writers[w := wr.(putting := true)]);
      run' := Writes1(run, Compare(w), x1);
      run' := Writes1(run', Put(w), AfterPut(x1, w));
    }
  }

  lemma {:induction false} CompletesFrom(run: seq<State>, w: nat) returns (run': seq<State>)
    requires IsRun(run) && w in Last(run).world.writers
    requires var wr := Last(run).world.writers[w];
      wr.prepared == |wr.writes| && wr.committed <= |wr.writes| && !wr.putting
    ensures IsRun(run') && run <= run' && Last(run').readers == Last(run).readers
    ensures Aside(Last(run).world, Last(run').world, w) && Returned(Last(run').world, w)
    decreases |Last(run).world.writers[w].writes| - Last(run).world.writers[w].committed
  {
    var wr := Last(run).world.writers[w];
    if wr.committed == |wr.writes| {
      run' := run;
    } else {
      run' := CommitsNext(run, w);
      run' := CompletesFrom(run', w);
    }
  }

  // ----- a read of one key

  lemma FreshReaderId(readers: map<nat, Reader>) returns (r: nat)
    ensures r !in readers
  {
    var ids := readers.Keys;
    r := 0;
    while r in ids
      invariant ids <= readers.Keys && forall v :: v in readers && v !in ids ==> v < r
      decreases ids
    {
      ids := ids - {r};
      r := r + 1;
    }
  }

  /** What one item demands: its siblings at its own stamp. */
  lemma DemandsOfOne(item: Item) returns (missing: seq<Fetch>)
    requires item.ts > 0
    ensures IsRepair([item], missing) && forall i :: 0 <= i < |missing| ==> missing[i].0 != item.key
  {
    var round1 := [item];
    assert round1[..0] == [];
    var required := map y | y in item.siblings && y != item.key :: item.ts;
    forall k ensures KeyRequired(round1, 1, k, required) {
      assert Demands(round1, 0, k) <==> k in required;
    }
    missing := ListFetches(required);
    RequiredIsRepair(round1, required, missing);
  }

  /** A reader in its second round fetches what is left and finishes; `k` is not among it. */
  lemma {:induction false} FinishesFrom(run: seq<State>, r: nat, round1: seq<Item>, missing: seq<Fetch>, n: nat, k: Key)
    returns (run': seq<State>)
    requires IsRun(run) && WorldInv(Last(run).world) && r in Last(run).readers && n <= |missing|
    requires var rd := Last(run).readers[r];
      && rd.Repairing? && rd.keys == [k] && rd.round1 == round1
      && rd.missing == missing && rd.fetched == n && k in rd.chosen
    requires Round1Ok(Last(run).world, round1) && IsRepair(round1, missing)
    requires forall i :: 0 <= i < |missing| ==> missing[i].0 != k
    ensures IsRun(run') && run <= run' && r in Last(run').readers && Last(run').world == Last(run).world
    ensures var rd, rd' := Last(run).readers[r], Last(run').readers[r];
      rd'.Done? && rd'.keys == [k] && k in rd'.chosen && rd'.chosen[k] == rd.chosen[k]
    decreases |missing| - n
  {
    var rd, st := Last(run).readers[r], Last(run).world.store;
    if n == |missing| {
      run' := Reads1(run, r, Done(rd.keys, rd.chosen, if missing == [] then 1 else 2), Finish);
    } else {
      DemandIsStored(Last(run).world, round1, missing, n);
      var item := GetVersion(st, missing[n].0, missing[n].1).value;
      run' := Reads1(run, r, rd.(fetched := n + 1, chosen := rd.chosen[missing[n].0 := item]), Refetch);
      run' := FinishesFrom(run', r, round1, missing, n + 1, k);
    }
  }

  /** A new reader of `k` alone returns the visible version of `k`. */
  lemma ReadsVisible(run: seq<State>, k: Key) returns (run': seq<State>, r: nat)
    requires IsRun(run) && WorldInv(Last(run).world) && k in Last(run).world.store.pointers
    ensures IsRun(run') && run <= run' && r !in Last(run).readers && r in Last(run').readers
    ensures var rd := Last(run').readers[r];
      rd.Done? && rd.keys == [k] && k in rd.chosen && rd.chosen[k].ts == Last(run).world.store.pointers[k]
  {
    var x, t := Last(run).world, Last(run).world.store.pointers[k];
    assert PointerInv(x, k);
    PreparedIsStored(x, k, t);
    FetchedIsOk(x, k, t);
    var item := GetVersion(x.store, k, t).value;
    r := FreshReaderId(Last(run).readers);
    run' := Arrives(run, r, [k]);
    run' := Reads1(run', r, Fetching([k], 0, Some(t), []), ReadPointer);
    run' := Reads1(run', r, Fetching([k], 1, None, [] + [item]), ReadVersion);
    var missing := DemandsOfOne(item);
    assert [] + [item] == [item] && [item][..0] == [];
    run' := Reads1(run', r, Repairing([k], [item], missing, 0, Overlay([item])), Decide(missing));
    run' := FinishesFrom(run', r, [item], missing, 0, k);
  }

  // ----- every overlap can cost a completed write

  /** After `run`, write `w` of `k` has returned at `i`, and reader `r`, which starts later, misses it. */
  ghost predicate Misses(run: seq<State>, run': seq<State>, i: nat, w: nat, r: nat, k: Key) {
    && IsRun(run') && run <= run' && |run| <= i < |run'|
    && Returned(run'[i].world, w) && Writes(run'[i].world.writers[w].writes, k)
    && r !in run'[i].readers && r in Last(run').readers
    && Last(run').readers[r].Done? && Last(run').readers[r].keys == [k]
    && !Holds(Last(run').readers[r].chosen, k, run'[i].world.writers[w].ts)
  }

  /** From every state in which two commits of a key overlap, the newer write can go on to return and a read that
      starts after that can miss it. */
  lemma OverlapMisses(run: seq<State>, k: Key) returns (run': seq<State>, i: nat, w: nat, r: nat)
    requires IsRun(run) && !Calm(Last(run).world, k)
    ensures Misses(run, run', i, w, r, k)
  {
    RunKeeps(run, |run| - 1, iset{});
    var x := Last(run).world;
    var u, v :| Putting(x, u, k) && Putting(x, v, k) && u != v;
    if x.writers[u].ts < x.writers[v].ts {
      w := v;
      run', i, r := LateAndMissed(run, v, u, k);
    } else {
      w := u;
      run', i, r := LateAndMissed(run, u, v, k);
    }
  }

  lemma LateAndMissed(run: seq<State>, late: nat, early: nat, k: Key) returns (run': seq<State>, i: nat, r: nat)
    requires IsRun(run) && Putting(Last(run).world, late, k) && Putting(Last(run).world, early, k) && late != early
    requires Last(run).world.writers[early].ts < Last(run).world.writers[late].ts
    ensures Misses(run, run', i, late, r, k)
  {
    RunKeeps(run, |run| - 1, iset{});
    assert WriterInvAt(Last(run).world, late);
    run' := Writes1(run, Put(late), AfterPut(Last(run).world, late));
    run' := CompletesFrom(run', late);
    i := |run'| - 1;
    ghost var done := run';
    run' := Writes1(run', Put(early), AfterPut(Last(run').world, early));
    RunKeeps(run', |run'| - 1, iset{});
    run', r := ReadsVisible(run', k);
    assert run'[i] == done[i];
  }
}
