/** Whole trees over key/digest maps, and the hash-pruned difference of two trees. */
module MstDiff {
  import opened Bytes
  import opened Digests
  import opened MstTree
  import opened MstBuild

  datatype Mst = Mst(base: nat, root: Tree)

  function MaxLevel(items: seq<Leveled>): (l: nat)
    ensures Below(items, l)
  {
    if items == [] then 0
    else
      var rest := MaxLevel(items[1..]);
      assert forall i :: 1 <= i < |items| ==> items[i] == items[1..][i - 1];
      if items[0].level > rest then items[0].level else rest
  }

  /** The tree of a map: a pure function of the map and the level function. */
  function TreeOfMap(h: Hasher, level: Leveler, m: map<Bytes, Digest>): Tree {
    var items := LevelAll(level, Entries(m));
    TreeAt(h, items, MaxLevel(items))
  }

  lemma TreeOfMapSound(h: Hasher, level: Leveler, m: map<Bytes, Digest>)
    requires SmallMap(m)
    ensures Wf(h, TreeOfMap(h, level, m))
    ensures Layered(level, TreeOfMap(h, level, m), MaxLevel(LevelAll(level, Entries(m))))
    ensures Collect(TreeOfMap(h, level, m)) == Entries(m)
    ensures AscendingPairs(Collect(TreeOfMap(h, level, m)))
    ensures MapOf(Collect(TreeOfMap(h, level, m))) == m
  {
    var items := LevelAll(level, Entries(m));
    ItemsOf(level, m);
    TreeAtSound(h, level, items, MaxLevel(items));
  }

  lemma ItemsOf(level: Leveler, m: map<Bytes, Digest>)
    requires SmallMap(m)
    ensures SmallItems(LevelAll(level, Entries(m))) && LevelsAgree(level, LevelAll(level, Entries(m)))
    ensures Pairs(LevelAll(level, Entries(m))) == Entries(m)
  {
    var ps := Entries(m);
    forall i | 0 <= i < |ps| ensures |ps[i].0| < U64 {
      AscendingLookup(ps, i);
    }
  }

  /** The root digest identifies the map: equal maps have equal roots, and equal roots mean equal maps
      unless two nodes collide. */
  lemma RootIdentifiesMap(h: Hasher, level: Leveler, a: map<Bytes, Digest>, b: map<Bytes, Digest>)
    requires SmallMap(a) && SmallMap(b)
    ensures a == b ==> HashOf(TreeOfMap(h, level, a)) == HashOf(TreeOfMap(h, level, b))
    ensures HashOf(TreeOfMap(h, level, a)) == HashOf(TreeOfMap(h, level, b)) ==>
      a == b || Collides(h, TreeOfMap(h, level, a), TreeOfMap(h, level, b))
  {
    TreeOfMapSound(h, level, a);
    TreeOfMapSound(h, level, b);
    if HashOf(TreeOfMap(h, level, a)) == HashOf(TreeOfMap(h, level, b)) {
      EqualDigests(h, TreeOfMap(h, level, a), TreeOfMap(h, level, b));
    }
  }

  /** The shape of a sound tree is determined by its contents. */
  lemma ShapeIsCanonical(h: Hasher, level: Leveler, s: Tree, t: Tree, bound: nat)
    requires Wf(h, s) && Layered(level, s, bound) && Wf(h, t) && Layered(level, t, bound)
    requires AscendingPairs(Collect(s)) && AscendingPairs(Collect(t))
    requires MapOf(Collect(s)) == MapOf(Collect(t))
    ensures s == t
  {
    AscendingPairsUnique(Collect(s), Collect(t));
    Rebuild(h, level, s, bound);
    Rebuild(h, level, t, bound);
  }

  /** Insertion order is irrelevant: rearranging pairs with distinct keys leaves the same map. */
  lemma InsertionOrderIrrelevant(ps: seq<Pair>, qs: seq<Pair>)
    requires multiset(ps) == multiset(qs)
    requires forall i, j :: 0 <= i < j < |ps| ==> ps[i].0 != ps[j].0
    ensures MapOf(ps) == MapOf(qs)
  {
    forall p | p in qs ensures p in ps {
      assert p in multiset(qs);
    }
    forall p | p in ps ensures p in qs {
      assert p in multiset(ps);
    }
    forall k ensures k in MapOf(ps) <==> k in MapOf(qs) {
      if k in MapOf(ps) {
        InsertedPair(ps, k);
        InsertsKey(qs, (k, MapOf(ps)[k]));
      }
      if k in MapOf(qs) {
        InsertedPair(qs, k);
        InsertsKey(ps, (k, MapOf(qs)[k]));
      }
    }
    forall k | k in MapOf(ps) ensures MapOf(ps)[k] == MapOf(qs)[k] {
      InsertedPair(ps, k);
      InsertedPair(qs, k);
      var i :| 0 <= i < |ps| && ps[i] == (k, MapOf(ps)[k]);
      var j :| 0 <= j < |ps| && ps[j] == (k, MapOf(qs)[k]);
    }
  }

  lemma {:induction false} InsertedPair(ps: seq<Pair>, k: Bytes)
    requires k in MapOf(ps)
    ensures (k, MapOf(ps)[k]) in ps
  {
    var last := ps[|ps| - 1];
    if last.0 != k {
      InsertedPair(ps[..|ps| - 1], k);
    } else {
      assert last == (k, MapOf(ps)[k]);
    }
  }

  lemma InsertsKey(ps: seq<Pair>, p: Pair)
    requires p in ps
    ensures p.0 in MapOf(ps)
  {
    var i :| 0 <= i < |ps| && ps[i] == p;
    MapOfKeys(ps, p.0);
  }

  /** `Mst::with_base`: collect into a sorted map, level the keys, build. */
  method WithBase(h: Hasher, levels: nat -> Leveler, pairs: seq<Pair>, base: nat) returns (t: Mst)
    requires base >= 2
    ensures t == Mst(base, TreeOfMap(h, levels(base), MapOf(pairs)))
  {
    var m: map<Bytes, Digest> := map[];
    for i := 0 to |pairs|
      invariant m == MapOf(pairs[..i])
    {
      assert pairs[..i + 1][..i] == pairs[..i];
      m := m[pairs[i].0 := pairs[i].1];
    }
    assert pairs[..|pairs|] == pairs;
    var items := LevelAll(levels(base), Entries(m));
    var root := BuildAt(h, items, MaxLevel(items));
    t := Mst(base, root);
  }

  // ----- the difference walk

  type Side = map<Bytes, Digest>

  /** A side map that grew by the contents `c`, except the keys `pruned`. */
  ghost predicate Added(c: Side, before: Side, after: Side, pruned: set<Bytes>) {
    after == before + (c - pruned)
  }

  /** Keys that both contents hold with equal values. */
  ghost predicate Common(a: Side, b: Side, keys: set<Bytes>) {
    keys <= a.Keys && keys <= b.Keys && forall k :: k in keys ==> a[k] == b[k]
  }

  /** The walk over contents `a` and `b` has added to each side everything except the keys `pruned`,
      which both sides hold with equal values. */
  ghost predicate Walked(a: Side, b: Side, here0: Side, there0: Side, here: Side, there: Side, pruned: set<Bytes>) {
    Common(a, b, pruned) && Added(a, here0, here, pruned) && Added(b, there0, there, pruned)
  }

  lemma AddedCompose(c1: Side, c2: Side, s0: Side, s1: Side, s2: Side, p1: set<Bytes>, p2: set<Bytes>)
    requires c1.Keys !! c2.Keys && p1 <= c1.Keys && p2 <= c2.Keys
    requires Added(c1, s0, s1, p1) && Added(c2, s1, s2, p2)
    ensures Added(c1 + c2, s0, s2, p1 + p2)
  {
    assert (c1 - p1) + (c2 - p2) == (c1 + c2) - (p1 + p2);
  }

  /** Two consecutive walks over disjoint contents make one walk. */
  lemma WalkedCompose(a1: Side, b1: Side, a2: Side, b2: Side, here0: Side, there0: Side,
                      here1: Side, there1: Side, here2: Side, there2: Side, p1: set<Bytes>, p2: set<Bytes>)
    requires a1.Keys !! a2.Keys && b1.Keys !! b2.Keys
    requires Walked(a1, b1, here0, there0, here1, there1, p1)
    requires Walked(a2, b2, here1, there1, here2, there2, p2)
    ensures Walked(a1 + a2, b1 + b2, here0, there0, here2, there2, p1 + p2)
  {
    AddedCompose(a1, a2, here0, here1, here2, p1, p2);
    AddedCompose(b1, b2, there0, there1, there2, p1, p2);
    assert Common(a1 + a2, b1 + b2, p1 + p2);
  }

  /** Insert every pair under `node` into `out`. */
  method Emit(node: Tree, out: map<Bytes, Digest>) returns (out': map<Bytes, Digest>)
    ensures out' == out + MapOf(Collect(node))
  {
    var pairs := Collect(node);
    out' := out;
    for i := 0 to |pairs|
      invariant out' == out + MapOf(pairs[..i])
    {
      EmitNext(pairs, i, out, out');
      out' := out'[pairs[i].0 := pairs[i].1];
    }
    assert pairs[..|pairs|] == pairs;
  }

  lemma EmitNext(pairs: seq<Pair>, i: nat, out: map<Bytes, Digest>, out': map<Bytes, Digest>)
    requires i < |pairs| && out' == out + MapOf(pairs[..i])
    ensures out'[pairs[i].0 := pairs[i].1] == out + MapOf(pairs[..i + 1])
  {
    assert pairs[..i + 1][..i] == pairs[..i] && pairs[..i + 1][i] == pairs[i];
    assert MapOf(pairs[..i + 1]) == MapOf(pairs[..i])[pairs[i].0 := pairs[i].1];
  }

  function Contents(t: Tree): map<Bytes, Digest> {
    MapOf(Collect(t))
  }

  ghost predicate Sound(h: Hasher, t: Tree) {
    Wf(h, t) && AscendingPairs(Collect(t))
  }

  /** Compare two subtrees, skipping equal digests. Unless two nodes collide, the pairs it skips are the
      same on both sides. */
  method DiffNodes(h: Hasher, a: Tree, b: Tree,
                   here0: Side, there0: Side, comparisons0: nat)
    returns (here: Side, there: Side, comparisons: nat, ghost pruned: set<Bytes>)
    requires Sound(h, a) && Sound(h, b)
    ensures Collides(h, a, b) || Walked(Contents(a), Contents(b), here0, there0, here, there, pruned)
    ensures comparisons0 < comparisons
    ensures comparisons <= comparisons0 + 1 + 2 * |Collect(a)|
    ensures comparisons <= comparisons0 + 1 + 2 * |Collect(b)|
    ensures a == b ==> here == here0 && there == there0 && comparisons == comparisons0 + 1
    decreases a, 1
  {
    here, there, comparisons, pruned := here0, there0, comparisons0 + 1, {};
    match (a, b) {
      case (Empty, Empty) =>
        WalkedNothing(map[], here0, there0);
      case (Node(_, _, _), Empty) =>
        here := Emit(a, here);
        WalkedOneSide(Contents(a), here0, there0);
      case (Empty, Node(_, _, _)) =>
        there := Emit(b, there);
        WalkedOneSide(Contents(b), there0, here0);
      case (Node(_, _, _), Node(_, _, _)) =>
        if a.hash == b.hash {
          EqualDigests(h, a, b);
          pruned := Contents(a).Keys;
          WalkedNothing(Contents(a), here0, there0);
        } else {
          here, there, comparisons, pruned := DiffAligned(h, a, b, here, there, comparisons);
        }
    }
  }

  lemma WalkedOneSide(c: Side, s: Side, other: Side)
    ensures Walked(c, map[], s, other, s + c, other, {})
    ensures Walked(map[], c, other, s, other, s + c, {})
  {
    assert c - {} == c;
  }

  lemma WalkedNothing(c: Side, here: Side, there: Side)
    ensures Walked(c, c, here, there, here, there, c.Keys)
    ensures Walked(map[], map[], here, there, here, there, {})
  {
    assert c - c.Keys == map[];
  }

  /** What is left of a node once its first `i` keys and children are passed. */
  ghost function Rest(t: Tree, i: nat): seq<Pair>
    requires t.Node? && i <= |t.keys| && |t.children| == |t.keys| + 1
  {
    Weave(t.keys[i..], t.children[i..])
  }

  /** The cursor stands before child `i`, with the pairs `done` behind it. */
  ghost predicate At(h: Hasher, t: Tree, i: nat, done: seq<Pair>) {
    && Sound(h, t) && t.Node? && i <= |t.keys|
    && Collect(t) == done + Rest(t, i) && (i > 0 ==> done != [])
  }

  lemma AtStart(h: Hasher, t: Tree)
    requires Sound(h, t) && t.Node?
    ensures At(h, t, 0, [])
  {
    assert t.keys[0..] == t.keys && t.children[0..] == t.children;
  }

  /** Passing the cursor over child `i` and key `i`. */
  lemma Advance(h: Hasher, t: Tree, i: nat, done: seq<Pair>)
    requires At(h, t, i, done) && i < |t.keys|
    ensures At(h, t, i + 1, done + Collect(t.children[i]) + [t.keys[i]])
    ensures Sound(h, t.children[i])
    ensures MapOf(done).Keys !! Contents(t.children[i]).Keys
    ensures MapOf(done + Collect(t.children[i])).Keys !! MapOf([t.keys[i]]).Keys
  {
    var c, k := Collect(t.children[i]), t.keys[i];
    assert t.keys[i..][1..] == t.keys[i + 1..] && t.children[i..][1..] == t.children[i + 1..];
    assert Rest(t, i) == c + [k] + Rest(t, i + 1);
    var tail := Rest(t, i + 1);
    assert Collect(t) == (done + c + [k]) + tail;
    AscendingParts(done + c + [k], tail);
    AscendingParts(done + c, [k]);
    AscendingParts(done, c);
  }

  /** The cursor on the child to the right of the last key. */
  lemma AdvanceLast(h: Hasher, t: Tree, done: seq<Pair>)
    requires t.Node? && At(h, t, |t.keys|, done)
    ensures Collect(t) == done + Collect(t.children[|t.keys|])
    ensures Sound(h, t.children[|t.keys|])
    ensures MapOf(done).Keys !! Contents(t.children[|t.keys|]).Keys
  {
    var n := |t.keys|;
    assert t.keys[n..] == [] && t.children[n..] == [t.children[n]];
    AscendingParts(done, Collect(t.children[n]));
  }

  /** A side that takes in a whole child and then one more pair. */
  lemma AddedChildAndKey(d: seq<Pair>, c: seq<Pair>, k: Pair, s0: Side, s: Side, p: set<Bytes>)
    requires Added(MapOf(d), s0, s, p) && p <= MapOf(d).Keys
    requires MapOf(d).Keys !! MapOf(c).Keys && MapOf(d + c).Keys !! MapOf([k]).Keys
    ensures Added(MapOf(d + c + [k]), s0, (s + MapOf(c))[k.0 := k.1], p)
  {
    MapOfConcat(d, c);
    AddedAll(MapOf(d), MapOf(c), s0, s, p);
    AddedKey(d + c, k, s0, s + MapOf(c), p);
  }

  lemma AddedAll(c1: Side, c2: Side, s0: Side, s: Side, p: set<Bytes>)
    requires Added(c1, s0, s, p) && p !! c2.Keys
    ensures Added(c1 + c2, s0, s + c2, p)
  {
    assert (c1 - p) + c2 == (c1 + c2) - p;
  }

  lemma AddedKey(d: seq<Pair>, k: Pair, s0: Side, s: Side, p: set<Bytes>)
    requires Added(MapOf(d), s0, s, p) && p <= MapOf(d).Keys && MapOf(d).Keys !! MapOf([k]).Keys
    ensures Added(MapOf(d + [k]), s0, s[k.0 := k.1], p)
  {
    MapOfConcat(d, [k]);
    Singleton(k);
    AddedAll(MapOf(d), MapOf([k]), s0, s, p);
    assert s + map[k.0 := k.1] == s[k.0 := k.1];
  }

  lemma Singleton(k: Pair)
    ensures MapOf([k]) == map[k.0 := k.1]
  {
    assert [k][..0] == [];
    assert MapOf([k][..0]) == map[];
  }

  lemma CommonGrow(d: seq<Pair>, x: seq<Pair>, b: Side, p: set<Bytes>)
    requires Common(MapOf(d), b, p) && MapOf(d).Keys !! MapOf(x).Keys
    ensures Common(MapOf(d + x), b, p)
  {
    MapOfConcat(d, x);
  }

  /** The walk passes a child and key that only the left node has at this position. */
  lemma StepHere(da: seq<Pair>, c: seq<Pair>, k: Pair, b: Side, here0: Side, there0: Side,
                 here: Side, there: Side, p: set<Bytes>)
    requires Walked(MapOf(da), b, here0, there0, here, there, p)
    requires MapOf(da).Keys !! MapOf(c).Keys && MapOf(da + c).Keys !! MapOf([k]).Keys
    ensures Walked(MapOf(da + c + [k]), b, here0, there0, (here + MapOf(c))[k.0 := k.1], there, p)
  {
    AddedChildAndKey(da, c, k, here0, here, p);
    CommonGrow(da, c, b, p);
    CommonGrow(da + c, [k], b, p);
  }

  /** Exchanging the two sides of a walk. */
  lemma WalkedSymmetric(a: map<Bytes, Digest>, b: map<Bytes, Digest>,
                        here0: Side, there0: Side,
                        here: Side, there: Side, p: set<Bytes>)
    requires Walked(a, b, here0, there0, here, there, p)
    ensures Walked(b, a, there0, here0, there, here, p)
  {
  }

  /** The walk passes a pair of children and a key that both nodes have. */
  lemma StepShared(da: seq<Pair>, ca: seq<Pair>, ka: Pair, db: seq<Pair>, cb: seq<Pair>, kb: Pair,
                   here0: Side, there0: Side,
                   here: Side, there: Side,
                   here1: Side, there1: Side, p: set<Bytes>, p1: set<Bytes>)
    requires Walked(MapOf(da), MapOf(db), here0, there0, here, there, p)
    requires Walked(MapOf(ca), MapOf(cb), here, there, here1, there1, p1)
    requires MapOf(da).Keys !! MapOf(ca).Keys && MapOf(da + ca).Keys !! MapOf([ka]).Keys
    requires MapOf(db).Keys !! MapOf(cb).Keys && MapOf(db + cb).Keys !! MapOf([kb]).Keys
    ensures Walked(MapOf(da + ca + [ka]), MapOf(db + cb + [kb]), here0, there0,
                   here1[ka.0 := ka.1], there1[kb.0 := kb.1], p + p1)
  {
    StepLast(da, ca, db, cb, here0, there0, here, there, here1, there1, p, p1);
    AddedKey(da + ca, ka, here0, here1, p + p1);
    AddedKey(db + cb, kb, there0, there1, p + p1);
    CommonGrow(da + ca, [ka], MapOf(db + cb), p + p1);
    CommonSymmetric(MapOf(da + ca + [ka]), MapOf(db + cb), p + p1);
    CommonGrow(db + cb, [kb], MapOf(da + ca + [ka]), p + p1);
  }

  lemma CommonSymmetric(a: Side, b: Side, p: set<Bytes>)
    requires Common(a, b, p)
    ensures Common(b, a, p)
  {
  }

  /** The walk ends with the pair of children to the right of the last keys. */
  lemma StepLast(da: seq<Pair>, ca: seq<Pair>, db: seq<Pair>, cb: seq<Pair>,
                 here0: Side, there0: Side,
                 here: Side, there: Side,
                 here1: Side, there1: Side, p: set<Bytes>, p1: set<Bytes>)
    requires Walked(MapOf(da), MapOf(db), here0, there0, here, there, p)
    requires Walked(MapOf(ca), MapOf(cb), here, there, here1, there1, p1)
    requires MapOf(da).Keys !! MapOf(ca).Keys && MapOf(db).Keys !! MapOf(cb).Keys
    ensures Walked(MapOf(da + ca), MapOf(db + cb), here0, there0, here1, there1, p + p1)
  {
    MapOfConcat(da, ca);
    MapOfConcat(db, cb);
    WalkedCompose(MapOf(da), MapOf(db), MapOf(ca), MapOf(cb), here0, there0, here, there, here1, there1, p, p1);
  }

  /** Cost so far: two comparisons per pair passed, with one to spare once a pair is passed. */
  predicate Paid(start: nat, now: nat, done: seq<Pair>) {
    start <= now && now + (if done == [] then 0 else 1) <= start + 2 * |done|
  }

  /** Part way through the walk over two nodes: `da` and `db` are behind the cursors. */
  ghost predicate Midway(h: Hasher, a: Tree, b: Tree, ia: nat, ib: nat, da: seq<Pair>, db: seq<Pair>,
                         here0: Side, there0: Side, comparisons0: nat,
                         here: Side, there: Side, comparisons: nat, pruned: set<Bytes>) {
    && At(h, a, ia, da) && At(h, b, ib, db)
    && (Collides(h, a, b) || Walked(MapOf(da), MapOf(db), here0, there0, here, there, pruned))
    && Paid(comparisons0, comparisons, da) && Paid(comparisons0, comparisons, db)
  }

  lemma MidwayStart(h: Hasher, a: Tree, b: Tree, here0: Side, there0: Side, comparisons0: nat)
    requires Sound(h, a) && Sound(h, b) && a.Node? && b.Node?
    ensures Midway(h, a, b, 0, 0, [], [], here0, there0, comparisons0, here0, there0, comparisons0, {})
  {
    AtStart(h, a);
    AtStart(h, b);
    assert MapOf([]) == map[];
  }

  /** Walk two nodes with different digests by merging their key lists; children that flank the cursors
      are compared in pairs, and a key on one side only is passed with its left child. */
  method DiffAligned(h: Hasher, a: Tree, b: Tree,
                     here0: Side, there0: Side, comparisons0: nat)
    returns (here: Side, there: Side, comparisons: nat, ghost pruned: set<Bytes>)
    requires Sound(h, a) && Sound(h, b) && a.Node? && b.Node?
    ensures Collides(h, a, b) || Walked(Contents(a), Contents(b), here0, there0, here, there, pruned)
    ensures comparisons0 <= comparisons
    ensures comparisons <= comparisons0 + 2 * |Collect(a)| && comparisons <= comparisons0 + 2 * |Collect(b)|
    decreases a, 0
  {
    here, there, comparisons, pruned := here0, there0, comparisons0, {};
    var ia: nat, ib: nat := 0, 0;
    ghost var da: seq<Pair>, db: seq<Pair> := [], [];
    MidwayStart(h, a, b, here0, there0, comparisons0);
    while ia < |a.keys| || ib < |b.keys|
      invariant Midway(h, a, b, ia, ib, da, db, here0, there0, comparisons0, here, there, comparisons, pruned)
      decreases |a.keys| - ia + |b.keys| - ib
    {
      ia, ib, here, there, comparisons, da, db, pruned :=
        DiffStep(h, a, b, ia, ib, da, db, here0, there0, comparisons0, here, there, comparisons, pruned);
    }
    here, there, comparisons, pruned :=
      DiffLast(h, a, b, da, db, here0, there0, comparisons0, here, there, comparisons, pruned);
  }

  /** One turn of the merge: a key both sides have next, or the smaller of the two next keys. */
  method DiffStep(h: Hasher, a: Tree, b: Tree, ia: nat, ib: nat, ghost da: seq<Pair>, ghost db: seq<Pair>,
                  ghost here0: Side, ghost there0: Side, ghost comparisons0: nat,
                  here: Side, there: Side, comparisons: nat, ghost pruned: set<Bytes>)
    returns (ia': nat, ib': nat, here': Side, there': Side, comparisons': nat,
             ghost da': seq<Pair>, ghost db': seq<Pair>, ghost pruned': set<Bytes>)
    requires Midway(h, a, b, ia, ib, da, db, here0, there0, comparisons0, here, there, comparisons, pruned)
    requires a.Node? && b.Node? && (ia < |a.keys| || ib < |b.keys|)
    ensures Midway(h, a, b, ia', ib', da', db', here0, there0, comparisons0, here', there', comparisons', pruned')
    ensures ia + ib < ia' + ib' && ia' <= |a.keys| && ib' <= |b.keys|
    decreases a, 0, 1
  {
    ia', ib', here', there', comparisons', da', db', pruned' := ia, ib, here, there, comparisons, da, db, pruned;
    if ia < |a.keys| && ib < |b.keys| && a.keys[ia].0 == b.keys[ib].0 {
      here', there', comparisons', pruned' :=
        DiffShared(h, a, b, ia, ib, da, db, here0, there0, comparisons0, here, there, comparisons, pruned);
      da', db' := da + Collect(a.children[ia]) + [a.keys[ia]], db + Collect(b.children[ib]) + [b.keys[ib]];
      ia', ib' := ia + 1, ib + 1;
    } else if ib == |b.keys| || (ia < |a.keys| && Less(a.keys[ia].0, b.keys[ib].0)) {
      here' := PassExtra(h, a, ia, da, MapOf(db), here0, there0, here, there, pruned);
      da', ia' := da + Collect(a.children[ia]) + [a.keys[ia]], ia + 1;
    } else {
      there' := PassExtra(h, b, ib, db, MapOf(da), there0, here0, there, here, pruned);
      db', ib' := db + Collect(b.children[ib]) + [b.keys[ib]], ib + 1;
    }
  }

  /** A key on one side only: that side takes in its left child and the key. */
  method PassExtra(h: Hasher, t: Tree, i: nat, ghost d: seq<Pair>, ghost other: Side, ghost s0: Side, ghost o0: Side,
                   s: Side, ghost o: Side, ghost pruned: set<Bytes>)
    returns (s': Side)
    requires At(h, t, i, d) && i < |t.keys|
    ensures At(h, t, i + 1, d + Collect(t.children[i]) + [t.keys[i]])
    ensures Walked(MapOf(d), other, s0, o0, s, o, pruned) ==>
      Walked(MapOf(d + Collect(t.children[i]) + [t.keys[i]]), other, s0, o0, s', o, pruned)
    ensures Walked(other, MapOf(d), o0, s0, o, s, pruned) ==>
      Walked(other, MapOf(d + Collect(t.children[i]) + [t.keys[i]]), o0, s0, o, s', pruned)
  {
    Advance(h, t, i, d);
    var k := t.keys[i];
    s' := Emit(t.children[i], s);
    s' := s'[k.0 := k.1];
    if Walked(MapOf(d), other, s0, o0, s, o, pruned) {
      StepHere(d, Collect(t.children[i]), k, other, s0, o0, s, o, pruned);
    }
    if Walked(other, MapOf(d), o0, s0, o, s, pruned) {
      WalkedSymmetric(other, MapOf(d), o0, s0, o, s, pruned);
      StepHere(d, Collect(t.children[i]), k, other, s0, o0, s, o, pruned);
      WalkedSymmetric(MapOf(d + Collect(t.children[i]) + [k]), other, s0, o0, s', o, pruned);
    }
  }

  /** One shared key: compare the children to its left, then record the key on both sides. */
  method DiffShared(h: Hasher, a: Tree, b: Tree, ia: nat, ib: nat, ghost da: seq<Pair>, ghost db: seq<Pair>,
                    ghost here0: Side, ghost there0: Side, ghost comparisons0: nat,
                    here: Side, there: Side, comparisons: nat, ghost pruned: set<Bytes>)
    returns (here': Side, there': Side, comparisons': nat, ghost pruned': set<Bytes>)
    requires At(h, a, ia, da) && At(h, b, ib, db) && ia < |a.keys| && ib < |b.keys|
    requires Collides(h, a, b) || Walked(MapOf(da), MapOf(db), here0, there0, here, there, pruned)
    requires Paid(comparisons0, comparisons, da) && Paid(comparisons0, comparisons, db)
    ensures At(h, a, ia + 1, da + Collect(a.children[ia]) + [a.keys[ia]])
    ensures At(h, b, ib + 1, db + Collect(b.children[ib]) + [b.keys[ib]])
    ensures Collides(h, a, b) ||
      Walked(MapOf(da + Collect(a.children[ia]) + [a.keys[ia]]), MapOf(db + Collect(b.children[ib]) + [b.keys[ib]]),
             here0, there0, here', there', pruned')
    ensures Paid(comparisons0, comparisons', da + Collect(a.children[ia]) + [a.keys[ia]])
    ensures Paid(comparisons0, comparisons', db + Collect(b.children[ib]) + [b.keys[ib]])
    decreases a, 0, 0
  {
    Advance(h, a, ia, da);
    Advance(h, b, ib, db);
    ghost var p1;
    here', there', comparisons', p1 := DiffNodes(h, a.children[ia], b.children[ib], here, there, comparisons);
    if Collides(h, a.children[ia], b.children[ib]) {
      CollidesUp(h, a, b, ia, ib);
    }
    if !Collides(h, a, b) {
      StepShared(da, Collect(a.children[ia]), a.keys[ia], db, Collect(b.children[ib]), b.keys[ib],
                 here0, there0, here, there, here', there', pruned, p1);
    }
    here' := here'[a.keys[ia].0 := a.keys[ia].1];
    there' := there'[b.keys[ib].0 := b.keys[ib].1];
    pruned' := pruned + p1;
  }

  /** Both key lists are exhausted: compare the trailing children. */
  method DiffLast(h: Hasher, a: Tree, b: Tree, ghost da: seq<Pair>, ghost db: seq<Pair>,
                  ghost here0: Side, ghost there0: Side, ghost comparisons0: nat,
                  here: Side, there: Side, comparisons: nat, ghost pruned: set<Bytes>)
    returns (here': Side, there': Side, comparisons': nat, ghost pruned': set<Bytes>)
    requires a.Node? && b.Node?
    requires Midway(h, a, b, |a.keys|, |b.keys|, da, db, here0, there0, comparisons0, here, there, comparisons, pruned)
    ensures Collides(h, a, b) || Walked(Contents(a), Contents(b), here0, there0, here', there', pruned')
    ensures comparisons0 <= comparisons'
    ensures comparisons' <= comparisons0 + 2 * |Collect(a)| && comparisons' <= comparisons0 + 2 * |Collect(b)|
    decreases a, 0, 0
  {
    AdvanceLast(h, a, da);
    AdvanceLast(h, b, db);
    var ca, cb := a.children[|a.keys|], b.children[|b.keys|];
    ghost var p1;
    here', there', comparisons', p1 := DiffNodes(h, ca, cb, here, there, comparisons);
    if Collides(h, ca, cb) {
      CollidesUp(h, a, b, |a.keys|, |b.keys|);
    }
    if !Collides(h, a, b) {
      StepLast(da, Collect(ca), db, Collect(cb), here0, there0, here, there, here', there', pruned, p1);
    }
    pruned' := pruned + p1;
  }

  // ----- the whole difference

  datatype MstDiff = MstDiff(onlyHere: seq<Bytes>, onlyThere: seq<Bytes>, comparisons: nat)

  /** Keys that `a` has and `b` lacks or holds with another value. */
  function DifferingSet(a: Side, b: Side): set<Bytes> {
    set k | k in a && (k !in b || b[k] != a[k])
  }

  function Differing(a: Side, b: Side): seq<Bytes> {
    SortedKeys(DifferingSet(a, b))
  }

  /** Dropping pairs that both sides hold alike does not change which keys differ. */
  lemma WalkedKeepsDifference(a: Side, b: Side, here: Side, there: Side, p: set<Bytes>)
    requires Walked(a, b, map[], map[], here, there, p)
    ensures DifferingSet(here, there) == DifferingSet(a, b)
    ensures DifferingSet(there, here) == DifferingSet(b, a)
  {
    assert here == a - p && there == b - p;
  }

  /** The keys of one side that the other does not match, in key order. */
  method Unmatched(here: Side, there: Side) returns (out: seq<Bytes>)
    ensures out == Differing(here, there)
  {
    out := [];
    var ks := SortedKeys(here.Keys);
    for i := 0 to |ks|
      invariant IsUnmatched(here, there, ks, i, out)
    {
      UnmatchedNext(here, there, ks, i, out);
      if ks[i] !in there || there[ks[i]] != here[ks[i]] {
        out := out + [ks[i]];
      }
    }
    assert ks[..|ks|] == ks;
    AscendingUnique(out, Differing(here, there));
  }

  /** The differing keys among the first `i`. */
  ghost predicate IsUnmatched(here: Side, there: Side, ks: seq<Bytes>, i: nat, out: seq<Bytes>) {
    i <= |ks| && Ascending(out) && forall k :: k in out <==> k in ks[..i] && k in DifferingSet(here, there)
  }

  lemma UnmatchedNext(here: Side, there: Side, ks: seq<Bytes>, i: nat, out: seq<Bytes>)
    requires i < |ks| && Ascending(ks) && ks[i] in here && IsUnmatched(here, there, ks, i, out)
    ensures IsUnmatched(here, there, ks, i + 1, if ks[i] in DifferingSet(here, there) then out + [ks[i]] else out)
  {
    assert ks[..i + 1] == ks[..i] + [ks[i]];
    forall j | 0 <= j < |out| ensures Less(out[j], ks[i]) {
      assert out[j] in out;
    }
  }

  /** `Mst::diff` over any two sound trees: exactly the differing keys of each side in key order, unless
      two nodes of the compared trees collide. */
  method Diff(h: Hasher, s: Mst, t: Mst) returns (d: MstDiff)
    requires Sound(h, s.root) && Sound(h, t.root)
    ensures (s.base == t.base && Collides(h, s.root, t.root)) ||
      (d.onlyHere == Differing(Contents(s.root), Contents(t.root)) &&
       d.onlyThere == Differing(Contents(t.root), Contents(s.root)))
    ensures s.base == t.base ==>
      1 <= d.comparisons <= 1 + 2 * |Collect(s.root)| && d.comparisons <= 1 + 2 * |Collect(t.root)|
    ensures s == t ==> d == MstDiff([], [], 1)
    ensures s.base != t.base ==> d.comparisons == 0
  {
    var here: Side, there: Side, comparisons := map[], map[], 0;
    if s.base == t.base {
      ghost var pruned;
      here, there, comparisons, pruned := DiffNodes(h, s.root, t.root, here, there, comparisons);
      if !Collides(h, s.root, t.root) {
        WalkedKeepsDifference(Contents(s.root), Contents(t.root), here, there, pruned);
      }
    } else {
      here := Emit(s.root, here);
      there := Emit(t.root, there);
      assert here == Contents(s.root) && there == Contents(t.root);
    }
    var left := Unmatched(here, there);
    var right := Unmatched(there, here);
    d := MstDiff(left, right, comparisons);
  }

  lemma SoundOfMap(h: Hasher, level: Leveler, m: Side)
    requires SmallMap(m)
    ensures Sound(h, TreeOfMap(h, level, m))
    ensures Contents(TreeOfMap(h, level, m)) == m && |Collect(TreeOfMap(h, level, m))| == |m|
  {
    TreeOfMapSound(h, level, m);
  }

  /** Build a tree for each of two pair lists and compare them, as one anti-entropy exchange does. */
  method CompareReplicas(h: Hasher, levels: nat -> Leveler, mine: seq<Pair>, theirs: seq<Pair>, base: nat)
    returns (d: MstDiff)
    requires base >= 2 && SmallMap(MapOf(mine)) && SmallMap(MapOf(theirs))
    ensures Collides(h, TreeOfMap(h, levels(base), MapOf(mine)), TreeOfMap(h, levels(base), MapOf(theirs))) ||
      (d.onlyHere == Differing(MapOf(mine), MapOf(theirs)) && d.onlyThere == Differing(MapOf(theirs), MapOf(mine)))
    ensures MapOf(mine) == MapOf(theirs) ==> d == MstDiff([], [], 1)
    ensures 1 <= d.comparisons <= 1 + 2 * |MapOf(mine)| && d.comparisons <= 1 + 2 * |MapOf(theirs)|
  {
    SoundOfMap(h, levels(base), MapOf(mine));
    SoundOfMap(h, levels(base), MapOf(theirs));
    var s := WithBase(h, levels, mine, base);
    var t := WithBase(h, levels, theirs, base);
    d := Diff(h, s, t);
  }
}
