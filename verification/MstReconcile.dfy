/** Anti-entropy repair of two object stores from the difference of their trees. */
module MstReconcile {
  import opened Bytes
  import opened Collections
  import opened Digests
  import opened MstTree
  import opened MstBuild
  import opened MstDiff

  /** Objects by composite key. */
  type Store = map<Bytes, Bytes>

  /** What the tree is built over: every key with the digest of its object. */
  function Summary(h: Hasher, st: Store): (m: map<Bytes, Digest>)
    ensures m.Keys == st.Keys && forall k :: k in m ==> m[k] == h(st[k])
  {
    map k | k in st :: h(st[k])
  }

  ghost predicate TreesCollide(h: Hasher, level: Leveler, a: Store, b: Store) {
    Collides(h, TreeOfMap(h, level, Summary(h, a)), TreeOfMap(h, level, Summary(h, b)))
  }

  /** Two objects under one key differ and have one digest. */
  ghost predicate ObjectsCollide(h: Hasher, a: Store, b: Store) {
    exists k :: k in a && k in b && a[k] != b[k] && h(a[k]) == h(b[k])
  }

  // ----- applying differences

  function Restrict(m: Store, ks: set<Bytes>): (r: Store)
    ensures r.Keys == m.Keys * ks
    ensures forall k :: k in r ==> r[k] == m[k]
  {
    map k | k in m && k in ks :: m[k]
  }

  ghost function Listed(keys: seq<Bytes>): set<Bytes> {
    set k | k in keys
  }

  lemma FetchNext(keys: seq<Bytes>, to: Store, from: Store, i: nat)
    requires i < |keys|
    ensures var k, so := keys[i], to + Restrict(from, Listed(keys[..i]));
      to + Restrict(from, Listed(keys[..i + 1])) == if k in from then so[k := from[k]] else so
  {
    assert keys[..i + 1] == keys[..i] + [keys[i]];
  }

  /** Fetch each listed object that the source still has and put it. */
  method Fetch(keys: seq<Bytes>, to: Store, from: Store) returns (to': Store, applied: nat)
    ensures to' == to + Restrict(from, Listed(keys))
    ensures (forall k :: k in keys ==> k in from) ==> applied == |keys|
  {
    to', applied := to, 0;
    for i := 0 to |keys|
      invariant to' == to + Restrict(from, Listed(keys[..i]))
      invariant (forall k :: k in keys ==> k in from) ==> applied == i
    {
      FetchNext(keys, to, from, i);
      if keys[i] in from {
        to' := to'[keys[i] := from[keys[i]]];
        applied := applied + 1;
      }
    }
    assert keys[..|keys|] == keys;
  }

  /** The keys to fetch are those the source holds and the other side lacks or holds with another digest. */
  ghost function Missing(h: Hasher, have: Store, source: Store): set<Bytes> {
    DifferingSet(Summary(h, source), Summary(h, have))
  }

  /** Taking the missing objects is taking everything, unless two objects collide. */
  lemma MissingIsAll(h: Hasher, a: Store, b: Store)
    ensures !ObjectsCollide(h, a, b) ==> a + Restrict(b, Missing(h, a, b)) == a + b
  {
  }

  lemma PartSmall(h: Hasher, all: Store, part: Store)
    requires SmallMap(Summary(h, all)) && part.Keys <= all.Keys
    ensures SmallMap(Summary(h, part))
  {
    var whole, m := Summary(h, all), Summary(h, part);
    SubsetSize(m.Keys, whole.Keys);
    assert |m| == |m.Keys| && |whole| == |whole.Keys|;
  }

  /** The listed keys are what each side is missing. */
  ghost predicate ListsMissing(h: Hasher, a: Store, b: Store, d: MstDiff) {
    && Listed(d.onlyHere) == Missing(h, b, a) && Listed(d.onlyThere) == Missing(h, a, b)
    && |d.onlyHere| == |Missing(h, b, a)| && |d.onlyThere| == |Missing(h, a, b)|
  }

  lemma DifferenceLists(h: Hasher, a: Store, b: Store, d: MstDiff)
    requires d.onlyHere == Differing(Summary(h, a), Summary(h, b))
    requires d.onlyThere == Differing(Summary(h, b), Summary(h, a))
    ensures ListsMissing(h, a, b, d)
  {
  }

  lemma SummarySize(h: Hasher, a: Store)
    ensures |Summary(h, a)| == |a|
  {
    assert |Summary(h, a).Keys| == |a.Keys|;
  }

  /** Compare two stores by their trees. */
  method CompareStores(h: Hasher, levels: nat -> Leveler, a: Store, b: Store, base: nat) returns (d: MstDiff)
    requires base >= 2 && SmallMap(Summary(h, a)) && SmallMap(Summary(h, b))
    ensures TreesCollide(h, levels(base), a, b) || ListsMissing(h, a, b, d)
    ensures TreesCollide(h, levels(base), a, b) || d.onlyThere == Differing(Summary(h, b), Summary(h, a))
    ensures Summary(h, a) == Summary(h, b) ==> d == MstDiff([], [], 1)
    ensures 1 <= d.comparisons <= 1 + 2 * |a| && d.comparisons <= 1 + 2 * |b|
  {
    var mine, theirs := Summary(h, a), Summary(h, b);
    d := CompareMaps(h, levels, mine, theirs, base);
    SummarySize(h, a);
    SummarySize(h, b);
    if d.onlyHere == Differing(mine, theirs) && d.onlyThere == Differing(theirs, mine) {
      DifferenceLists(h, a, b, d);
    }
  }

  method CompareMaps(h: Hasher, levels: nat -> Leveler, a: map<Bytes, Digest>, b: map<Bytes, Digest>, base: nat)
    returns (d: MstDiff)
    requires base >= 2 && SmallMap(a) && SmallMap(b)
    ensures Collides(h, TreeOfMap(h, levels(base), a), TreeOfMap(h, levels(base), b)) ||
      (d.onlyHere == Differing(a, b) && d.onlyThere == Differing(b, a))
    ensures a == b ==> d == MstDiff([], [], 1)
    ensures 1 <= d.comparisons <= 1 + 2 * |a| && d.comparisons <= 1 + 2 * |b|
  {
    var mine, theirs := Entries(a), Entries(b);
    d := CompareReplicas(h, levels, mine, theirs, base);
  }

  // ----- one direction

  datatype Outcome = Outcome(applied: nat, toPush: nat, comparisons: nat)

  /** Pull from a peer everything it has that the local side lacks or holds with another digest. Unless something
      collides the local store then holds all the peer's objects and its own others. */
  method Pull(h: Hasher, levels: nat -> Leveler, local: Store, peer: Store, base: nat)
    returns (local': Store, outcome: Outcome)
    requires base >= 2 && SmallMap(Summary(h, local)) && SmallMap(Summary(h, peer))
    ensures local.Keys <= local'.Keys <= local.Keys + peer.Keys
    ensures TreesCollide(h, levels(base), local, peer) || ObjectsCollide(h, local, peer) || local' == local + peer
    ensures TreesCollide(h, levels(base), local, peer) ||
      (outcome.applied == |Missing(h, local, peer)| && outcome.toPush == |Missing(h, peer, local)|)
    ensures local == peer ==> local' == local && outcome == Outcome(0, 0, 1)
    ensures 1 <= outcome.comparisons <= 1 + 2 * |local| && outcome.comparisons <= 1 + 2 * |peer|
  {
    var d := CompareStores(h, levels, local, peer, base);
    local', outcome := Take(h, local, peer, d, TreesCollide(h, levels(base), local, peer));
  }

  method Take(ghost h: Hasher, local: Store, peer: Store, d: MstDiff, ghost collide: bool)
    returns (local': Store, outcome: Outcome)
    requires collide || ListsMissing(h, local, peer, d)
    ensures local.Keys <= local'.Keys <= local.Keys + peer.Keys
    ensures collide || ObjectsCollide(h, local, peer) || local' == local + peer
    ensures collide || (outcome.applied == |Missing(h, local, peer)| && outcome.toPush == |Missing(h, peer, local)|)
    ensures local == peer && d == MstDiff([], [], 1) ==> local' == local && outcome == Outcome(0, 0, 1)
    ensures outcome.comparisons == d.comparisons
  {
    var applied;
    local', applied := Fetch(d.onlyThere, local, peer);
    outcome := Outcome(applied, |d.onlyHere|, d.comparisons);
    if !collide {
      MissingAtSource(h, local, peer, d.onlyThere);
      MissingIsAll(h, local, peer);
    }
  }

  lemma MissingAtSource(h: Hasher, have: Store, source: Store, keys: seq<Bytes>)
    requires Listed(keys) == Missing(h, have, source)
    ensures forall k :: k in keys ==> k in source
  {
    forall k | k in keys ensures k in source {
      assert k in Listed(keys);
    }
  }

  // ----- both directions

  /** What a round of two pulls leaves, unless the trees compared first or second collide. */
  ghost predicate Converged(h: Hasher, a: Store, b: Store, a': Store, b': Store, collide: bool, collide': bool) {
    collide || ObjectsCollide(h, a, b) || collide' || a' == b' == a + b
  }

  /** A pull within a round over the objects of two stores. */
  method Sweep(h: Hasher, levels: nat -> Leveler, local: Store, peer: Store, base: nat, ghost all: Store)
    returns (local': Store)
    requires base >= 2 && SmallMap(Summary(h, all)) && local.Keys <= all.Keys && peer.Keys <= all.Keys
    ensures local'.Keys <= all.Keys
    ensures TreesCollide(h, levels(base), local, peer) || ObjectsCollide(h, local, peer) || local' == local + peer
  {
    PartSmall(h, all, local);
    PartSmall(h, all, peer);
    var out;
    local', out := Pull(h, levels, local, peer, base);
  }

  /** Each side pulls from the other in turn. */
  method PullInTurn(h: Hasher, levels: nat -> Leveler, a: Store, b: Store, base: nat) returns (a': Store, b': Store)
    requires base >= 2 && SmallMap(Summary(h, a + b))
    ensures a'.Keys <= a.Keys + b.Keys && b'.Keys <= a.Keys + b.Keys
    ensures Converged(h, a, b, a', b', TreesCollide(h, levels(base), a, b), TreesCollide(h, levels(base), b, a'))
  {
    a' := Sweep(h, levels, a, b, base, a + b);
    b' := Sweep(h, levels, b, a', base, a + b);
    BothMerged(h, a, b, a', b', TreesCollide(h, levels(base), a, b), TreesCollide(h, levels(base), b, a'));
  }

  /** When the second pull starts after the first has ended, both sides end up with one and the same store, and a
      further comparison finds nothing in one step, unless something collides. The left side, which pulls first, loses
      its object on every key that the two sides hold with different values. */
  method PullBothWays(h: Hasher, levels: nat -> Leveler, a: Store, b: Store, base: nat)
    returns (a': Store, b': Store, again: MstDiff)
    requires base >= 2 && SmallMap(Summary(h, a + b))
    ensures TreesCollide(h, levels(base), a, b) || ObjectsCollide(h, a, b) || TreesCollide(h, levels(base), b, a') ||
      (a' == b' == a + b && again == MstDiff([], [], 1))
  {
    a', b' := PullInTurn(h, levels, a, b, base);
    PartSmall(h, a + b, a');
    PartSmall(h, a + b, b');
    again := CompareStores(h, levels, a', b', base);
  }

  lemma BothMerged(h: Hasher, a: Store, b: Store, a': Store, b': Store, collide: bool, collide': bool)
    requires collide || ObjectsCollide(h, a, b) || a' == a + b
    requires collide' || ObjectsCollide(h, b, a') || b' == b + a'
    ensures Converged(h, a, b, a', b', collide, collide')
  {
    assert !ObjectsCollide(h, b, a + b) && b + (a + b) == a + b;
  }

  /** One comparison drives both directions: the left side gains what only the right side has, then the right side
      takes the left side's differing keys from the updated left side. */
  method Exchange(h: Hasher, levels: nat -> Leveler, a: Store, b: Store, base: nat)
    returns (a': Store, b': Store, again: MstDiff)
    requires base >= 2 && SmallMap(Summary(h, a + b))
    ensures TreesCollide(h, levels(base), a, b) || ObjectsCollide(h, a, b) ||
      (a' == b' == a + b && again == MstDiff([], [], 1))
  {
    PartSmall(h, a + b, a);
    PartSmall(h, a + b, b);
    var d := CompareStores(h, levels, a, b, base);
    a', b' := TakeBoth(h, a, b, d, TreesCollide(h, levels(base), a, b));
    PartSmall(h, a + b, a');
    PartSmall(h, a + b, b');
    again := CompareStores(h, levels, a', b', base);
  }

  method TakeBoth(ghost h: Hasher, a: Store, b: Store, d: MstDiff, ghost collide: bool) returns (a': Store, b': Store)
    requires collide || ListsMissing(h, a, b, d)
    ensures a'.Keys <= a.Keys + b.Keys && b'.Keys <= a.Keys + b.Keys
    ensures collide || ObjectsCollide(h, a, b) || a' == b' == a + b
  {
    var applied;
    a', applied := Fetch(d.onlyThere, a, b);
    b', applied := Fetch(d.onlyHere, b, a');
    if !collide && !ObjectsCollide(h, a, b) {
      MissingIsAll(h, a, b);
      ExchangeMeets(h, a, b);
    }
  }

  lemma ExchangeMeets(h: Hasher, a: Store, b: Store)
    requires !ObjectsCollide(h, a, b)
    ensures b + Restrict(a + b, Missing(h, b, a)) == a + b
  {
  }
}
