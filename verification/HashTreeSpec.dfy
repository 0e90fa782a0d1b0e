/** What a segmented hash tree digests, and what equal digests say about the contents. */
module HashTreeSpec {
  import opened Bytes
  import opened Collections
  import opened Digests

  type Contents = map<Bytes, Digest>

  function Pow(base: nat, exp: nat): nat {
    if exp == 0 then 1 else base * Pow(base, exp - 1)
  }

  // ----- placement

  /** The segment a key belongs to among `n`. */
  function SlotOf(h: Hasher, n: nat, key: Bytes): (i: nat)
    ensures n > 0 ==> i < n
  {
    if n <= 1 then 0 else FromBE(h(key)[..8]) % n
  }

  /** A key whose leading eight digest bytes are a word below the number of segments sits in the segment of that
      number. */
  lemma SlotOfWord(h: Hasher, n: nat, key: Bytes, v: nat)
    requires v < n && v < U64 && h(key)[..8] == U64BE(v)
    ensures SlotOf(h, n, key) == v
  {
    U64RoundTrip(v);
    if n > 1 {
      Quotient(v, n, 0, v);
    }
  }

  ghost predicate Divides(n: nat, d: int) {
    exists q: int :: d == n * q
  }

  /** Two keys share a segment exactly when the number of segments divides the difference of their leading words. */
  lemma SlotsShare(h: Hasher, n: nat, key: Bytes, key': Bytes, v: nat, w: nat)
    requires n > 0 && v < U64 && w < U64 && h(key)[..8] == U64BE(v) && h(key')[..8] == U64BE(w)
    ensures SlotOf(h, n, key) == SlotOf(h, n, key') <==> Divides(n, v - w)
  {
    U64RoundTrip(v);
    U64RoundTrip(w);
    if n == 1 {
      assert v - w == n * (v - w);
    } else {
      Congruent(v, w, n);
    }
  }

  lemma Congruent(v: nat, w: nat, n: nat)
    requires n > 0
    ensures v % n == w % n <==> Divides(n, v - w)
  {
    if v % n == w % n {
      SameQuotient(v, w, n, v / n - w / n);
    }
    if Divides(n, v - w) {
      var q: int :| v - w == n * q;
      SameRemainder(v, w, n, q);
    }
  }

  lemma SameQuotient(v: nat, w: nat, n: nat, q: int)
    requires n > 0 && v % n == w % n && q == v / n - w / n
    ensures v - w == n * q
  {
    assert v == n * (v / n) + v % n && w == n * (w / n) + w % n;
    assert n * (v / n - w / n) == n * (v / n) - n * (w / n);
  }

  lemma SameRemainder(v: nat, w: nat, n: nat, q: int)
    requires n > 0 && v - w == n * q
    ensures v % n == w % n
  {
    var p := w / n + q;
    assert w == n * (w / n) + w % n;
    assert n * (w / n + q) == n * (w / n) + n * q;
    Multiple(n, p, 0);
    Quotient(v, n, p, w % n);
  }

  /** The entries of `m` that belong to segment `i`. */
  function Slice(h: Hasher, n: nat, m: Contents, i: nat): Contents {
    map k | k in m && SlotOf(h, n, k) == i :: m[k]
  }

  lemma SliceSmall(h: Hasher, n: nat, m: Contents, i: nat)
    requires SmallMap(m)
    ensures SmallMap(Slice(h, n, m, i))
  {
    var s := Slice(h, n, m, i);
    SubsetSize(s.Keys, m.Keys);
    assert |s| == |s.Keys| && |m| == |m.Keys|;
  }

  // ----- segment digests

  function SegmentBytes(keys: Contents): Bytes {
    KeyBytes(Entries(keys))
  }

  function SegmentDigest(h: Hasher, keys: Contents): Digest {
    if keys == map[] then ZERO_HASH else h(SegmentBytes(keys))
  }

  /** These two segments defeat the hash function: distinct preimages with one digest, or contents that
      digest to the value reserved for an empty segment. */
  ghost predicate SegmentsCollide(h: Hasher, a: Contents, b: Contents) {
    || (a != map[] && b != map[] && SegmentBytes(a) != SegmentBytes(b) && h(SegmentBytes(a)) == h(SegmentBytes(b)))
    || (a != map[] && b == map[] && h(SegmentBytes(a)) == ZERO_HASH)
    || (a == map[] && b != map[] && h(SegmentBytes(b)) == ZERO_HASH)
  }

  /** Segments have one digest exactly when they hold the same entries or collide. */
  lemma EqualSegmentDigests(h: Hasher, a: Contents, b: Contents)
    requires SmallMap(a) && SmallMap(b)
    ensures SegmentDigest(h, a) == SegmentDigest(h, b) <==> a == b || SegmentsCollide(h, a, b)
  {
    if SegmentBytes(a) == SegmentBytes(b) {
      EntriesSmall(a);
      EntriesSmall(b);
      PairBytesParse(Entries(a), Entries(b));
      assert a == MapOf(Entries(a)) && b == MapOf(Entries(b));
    }
  }

  lemma EntriesSmall(m: Contents)
    requires SmallMap(m)
    ensures SmallKeys(Entries(m))
  {
    var ps := Entries(m);
    forall i | 0 <= i < |ps| ensures |ps[i].0| < U64 {
      AscendingLookup(ps, i);
      assert ps[i].0 in m;
    }
  }

  /** The pairs of a segment can be parsed back out of its preimage. */
  lemma {:induction false} PairBytesParse(a: seq<Pair>, b: seq<Pair>)
    requires SmallKeys(a) && SmallKeys(b)
    requires KeyBytes(a) == KeyBytes(b)
    ensures a == b
  {
    if a != [] && b != [] {
      var p, q := a[0], b[0];
      var restA, restB := KeyBytes(a[1..]), KeyBytes(b[1..]);
      Regroup(U64BE(|p.0|), p.0, p.1, restA);
      Regroup(U64BE(|q.0|), q.0, q.1, restB);
      SplitEqual(U64BE(|p.0|), p.0 + (p.1 + restA), U64BE(|q.0|), q.0 + (q.1 + restB));
      U64Injective(|p.0|, |q.0|);
      KeyParseRest(p, restA, q, restB);
      PairBytesParse(a[1..], b[1..]);
      assert a == [p] + a[1..] && b == [q] + b[1..];
    }
  }

  // ----- interior levels

  type Level = seq<Digest>

  function Joined(level: Level): Bytes {
    if level == [] then [] else level[0] + Joined(level[1..])
  }

  lemma {:induction false} JoinedInjective(a: Level, b: Level)
    requires |a| == |b| && Joined(a) == Joined(b)
    ensures a == b
  {
    if a != [] {
      SplitEqual(a[0], Joined(a[1..]), b[0], Joined(b[1..]));
      JoinedInjective(a[1..], b[1..]);
      assert a == [a[0]] + a[1..] && b == [b[0]] + b[1..];
    }
  }

  /** Digests are joined in order. */
  lemma {:induction false} JoinedLayout(level: Level)
    ensures Joined(level) == Flat(level)
  {
    if level != [] {
      FlatFirst(level);
      JoinedLayout(level[1..]);
    }
  }

  /** One digest per `fanout` consecutive children; a shorter last group is digested as it is. */
  function Parents(h: Hasher, level: Level, fanout: nat): Level
    requires fanout > 0
  {
    if level == [] then []
    else if |level| <= fanout then [h(Joined(level))]
    else [h(Joined(level[..fanout]))] + Parents(h, level[fanout..], fanout)
  }

  function Reduce(h: Hasher, level: Level, fanout: nat): Level
    requires fanout > 0
  {
    if |level| <= 1 then level else Parents(h, level, fanout)
  }

  function Reductions(h: Hasher, level: Level, fanout: nat, depth: nat): Level
    requires fanout > 0
    decreases depth
  {
    if depth == 0 then level else Reductions(h, Reduce(h, level, fanout), fanout, depth - 1)
  }

  lemma {:induction false} ParentsCount(h: Hasher, level: Level, fanout: nat, n: nat)
    requires fanout > 0 && |level| == fanout * n
    ensures |Parents(h, level, fanout)| == n
    decreases n
  {
    if n > 0 {
      assert fanout * n == fanout * (n - 1) + fanout;
      if n > 1 {
        assert fanout * (n - 1) >= fanout;
        ParentsCount(h, level[fanout..], fanout, n - 1);
      }
    }
  }

  /** The digests from `lo` on, `fanout` of them or as many as are left. */
  function Group(level: Level, lo: nat, fanout: nat): Level {
    if |level| <= lo then [] else level[lo..if lo + fanout < |level| then lo + fanout else |level|]
  }

  lemma GroupShift(level: Level, lo: nat, fanout: nat)
    requires fanout <= |level|
    ensures Group(level[fanout..], lo, fanout) == Group(level, lo + fanout, fanout)
  {
  }

  lemma ParentsFirst(h: Hasher, level: Level, fanout: nat)
    requires fanout > 0 && level != []
    ensures Parents(h, level, fanout) != [] && Parents(h, level, fanout)[0] == h(Flat(Group(level, 0, fanout)))
  {
    JoinedLayout(Group(level, 0, fanout));
    assert level[..|level|] == level;
  }

  /** Each digest of the next level up is that of the `fanout` digests below it in order, or of those that are left. */
  lemma {:induction false} ParentsAt(h: Hasher, level: Level, fanout: nat, i: nat, lo: nat)
    requires fanout > 0 && lo == fanout * i < |level|
    ensures i < |Parents(h, level, fanout)| && Parents(h, level, fanout)[i] == h(Flat(Group(level, lo, fanout)))
    decreases i
  {
    if i == 0 {
      ParentsFirst(h, level, fanout);
    } else {
      NextGroup(fanout, i);
      Multiple(fanout, 0, i);
      ParentsAt(h, level[fanout..], fanout, i - 1, lo - fanout);
      GroupShift(level, lo - fanout, fanout);
    }
  }

  lemma NextGroup(fanout: nat, i: nat)
    requires i > 0
    ensures fanout * i == fanout * (i - 1) + fanout
  {
  }

  lemma {:induction false} PowPositive(base: nat, exp: nat)
    requires base > 0
    ensures Pow(base, exp) > 0
    ensures base == 1 ==> Pow(base, exp) == 1
  {
    if exp > 0 {
      PowPositive(base, exp - 1);
      assert base * Pow(base, exp - 1) >= Pow(base, exp - 1);
    }
  }

  lemma PowUnit(base: nat, exp: nat)
    requires base > 0 && exp > 0 && Pow(base, exp) <= 1
    ensures Pow(base, exp - 1) == 1
  {
    PowPositive(base, exp - 1);
    assert base * Pow(base, exp - 1) >= Pow(base, exp - 1);
  }

  lemma ReduceCount(h: Hasher, level: Level, fanout: nat, depth: nat)
    requires fanout > 0 && depth > 0 && |level| == Pow(fanout, depth)
    ensures |Reduce(h, level, fanout)| == Pow(fanout, depth - 1)
  {
    if |level| <= 1 {
      PowPositive(fanout, depth);
      PowUnit(fanout, depth);
    } else {
      ParentsCount(h, level, fanout, Pow(fanout, depth - 1));
    }
  }

  /** A full level of `fanout ^ depth` digests is down to one after `depth` reductions. */
  lemma {:induction false} ReducesToOne(h: Hasher, level: Level, fanout: nat, depth: nat)
    requires fanout > 0 && |level| == Pow(fanout, depth)
    ensures |Reductions(h, level, fanout, depth)| == 1
    decreases depth
  {
    if depth > 0 {
      ReduceCount(h, level, fanout, depth);
      ReducesToOne(h, Reduce(h, level, fanout), fanout, depth - 1);
    }
  }

  /** Two groups of children that stand at the same place collide. */
  ghost predicate GroupsCollide(h: Hasher, a: Level, b: Level, fanout: nat)
    requires fanout > 0 && |a| == |b|
    decreases |a|
  {
    if a == [] then false
    else if |a| <= fanout then Joined(a) != Joined(b) && h(Joined(a)) == h(Joined(b))
    else
      || (Joined(a[..fanout]) != Joined(b[..fanout]) && h(Joined(a[..fanout])) == h(Joined(b[..fanout])))
      || GroupsCollide(h, a[fanout..], b[fanout..], fanout)
  }

  /** Two groups of children at the same place of the same interior level collide. */
  ghost predicate LevelsCollide(h: Hasher, a: Level, b: Level, fanout: nat, depth: nat)
    requires fanout > 0 && |a| == |b| == Pow(fanout, depth)
    decreases depth
  {
    && depth > 0
    && |a| > 1
    && (|| GroupsCollide(h, a, b, fanout)
        || (&& |Reduce(h, a, fanout)| == |Reduce(h, b, fanout)| == Pow(fanout, depth - 1)
            && LevelsCollide(h, Reduce(h, a, fanout), Reduce(h, b, fanout), fanout, depth - 1)))
  }

  lemma {:induction false} EqualParents(h: Hasher, a: Level, b: Level, fanout: nat)
    requires fanout > 0 && |a| == |b| && Parents(h, a, fanout) == Parents(h, b, fanout)
    ensures a == b || GroupsCollide(h, a, b, fanout)
    decreases |a|
  {
    if a == [] {
    } else if |a| <= fanout {
      assert Parents(h, a, fanout)[0] == Parents(h, b, fanout)[0];
      if Joined(a) == Joined(b) {
        JoinedInjective(a, b);
      }
    } else {
      var x, y := h(Joined(a[..fanout])), h(Joined(b[..fanout]));
      SplitEqual([x], Parents(h, a[fanout..], fanout), [y], Parents(h, b[fanout..], fanout));
      assert [x][0] == [y][0];
      if Joined(a[..fanout]) == Joined(b[..fanout]) {
        JoinedInjective(a[..fanout], b[..fanout]);
      }
      EqualParents(h, a[fanout..], b[fanout..], fanout);
      assert a == a[..fanout] + a[fanout..] && b == b[..fanout] + b[fanout..];
    }
  }

  /** Full levels that reduce to the same digest are equal, or two groups on the way up collide. */
  lemma {:induction false} EqualReductions(h: Hasher, a: Level, b: Level, fanout: nat, depth: nat)
    requires fanout > 0 && |a| == |b| == Pow(fanout, depth)
    requires Reductions(h, a, fanout, depth) == Reductions(h, b, fanout, depth)
    ensures a == b || LevelsCollide(h, a, b, fanout, depth)
    decreases depth
  {
    if depth > 0 {
      ReduceCount(h, a, fanout, depth);
      ReduceCount(h, b, fanout, depth);
      EqualReductions(h, Reduce(h, a, fanout), Reduce(h, b, fanout), fanout, depth - 1);
      if |a| > 1 && Reduce(h, a, fanout) == Reduce(h, b, fanout) {
        EqualParents(h, a, b, fanout);
      }
    }
  }

  // ----- whole trees

  /** The digest of each segment of a tree that holds `m` in `n` segments. */
  function Leaf(h: Hasher, n: nat, m: Contents): nat -> Digest {
    i => SegmentDigest(h, Slice(h, n, m, i))
  }

  function LevelOf(leaf: nat -> Digest, n: nat): Level {
    if n == 0 then [] else LevelOf(leaf, n - 1) + [leaf(n - 1)]
  }

  lemma {:induction false} LevelIs(leaf: nat -> Digest, n: nat)
    ensures |LevelOf(leaf, n)| == n && forall i :: 0 <= i < n ==> LevelOf(leaf, n)[i] == leaf(i)
  {
    if n > 0 {
      LevelIs(leaf, n - 1);
    }
  }

  function LeafDigests(h: Hasher, n: nat, m: Contents): (level: Level)
    ensures |level| == n
    ensures forall i :: 0 <= i < n ==> level[i] == SegmentDigest(h, Slice(h, n, m, i))
  {
    LevelIs(Leaf(h, n, m), n);
    LevelOf(Leaf(h, n, m), n)
  }

  function TreeRoot(h: Hasher, fanout: nat, depth: nat, m: Contents): Digest
    requires fanout > 0
  {
    var leaves := LeafDigests(h, Pow(fanout, depth), m);
    ReducesToOne(h, leaves, fanout, depth);
    Reductions(h, leaves, fanout, depth)[0]
  }

  /** Two segments at the same place collide. */
  ghost predicate LeavesCollide(h: Hasher, n: nat, a: Contents, b: Contents) {
    exists i: nat :: i < n && SegmentsCollide(h, Slice(h, n, a, i), Slice(h, n, b, i))
  }

  /** Two segments, or two groups on an interior level, collide. */
  ghost predicate TreesCollide(h: Hasher, fanout: nat, depth: nat, a: Contents, b: Contents)
    requires fanout > 0
  {
    var n := Pow(fanout, depth);
    LeavesCollide(h, n, a, b) || LevelsCollide(h, LeafDigests(h, n, a), LeafDigests(h, n, b), fanout, depth)
  }

  /** Two maps agree on every segment exactly when they are the same map. */
  lemma SlicesDetermine(h: Hasher, n: nat, a: Contents, b: Contents)
    requires n > 0
    ensures a == b <==> forall i: nat :: i < n ==> Slice(h, n, a, i) == Slice(h, n, b, i)
  {
    if forall i: nat :: i < n ==> Slice(h, n, a, i) == Slice(h, n, b, i) {
      forall k ensures (k in a <==> k in b) && (k in a ==> a[k] == b[k]) {
        SlicesAgree(h, n, a, b, k);
      }
      assert a.Keys == b.Keys;
    }
  }

  lemma SlicesAgree(h: Hasher, n: nat, a: Contents, b: Contents, k: Bytes)
    requires n > 0 && Slice(h, n, a, SlotOf(h, n, k)) == Slice(h, n, b, SlotOf(h, n, k))
    ensures (k in a <==> k in b) && (k in a ==> a[k] == b[k])
  {
    var i := SlotOf(h, n, k);
    assert k in a <==> k in Slice(h, n, a, i);
    assert k in b <==> k in Slice(h, n, b, i);
  }

  lemma EqualLeaves(h: Hasher, n: nat, a: Contents, b: Contents)
    requires n > 0 && SmallMap(a) && SmallMap(b)
    requires LeafDigests(h, n, a) == LeafDigests(h, n, b)
    ensures a == b || LeavesCollide(h, n, a, b)
  {
    if !LeavesCollide(h, n, a, b) {
      forall i: nat | i < n ensures Slice(h, n, a, i) == Slice(h, n, b, i) {
        SliceSmall(h, n, a, i);
        SliceSmall(h, n, b, i);
        assert LeafDigests(h, n, a)[i] == LeafDigests(h, n, b)[i];
        EqualSegmentDigests(h, Slice(h, n, a, i), Slice(h, n, b, i));
      }
      SlicesDetermine(h, n, a, b);
    }
  }

  /** For one shape, equal roots mean equal contents, or a collision between the two trees. */
  lemma RootIdentifiesContents(h: Hasher, fanout: nat, depth: nat, a: Contents, b: Contents)
    requires fanout > 0 && SmallMap(a) && SmallMap(b)
    requires TreeRoot(h, fanout, depth, a) == TreeRoot(h, fanout, depth, b)
    ensures a == b || TreesCollide(h, fanout, depth, a, b)
  {
    var n := Pow(fanout, depth);
    PowPositive(fanout, depth);
    var x, y := LeafDigests(h, n, a), LeafDigests(h, n, b);
    EqualTops(h, x, y, TreeRoot(h, fanout, depth, a), fanout, depth);
    if x == y {
      EqualLeaves(h, n, a, b);
    }
  }

  lemma EqualTops(h: Hasher, x: Level, y: Level, top: Digest, fanout: nat, depth: nat)
    requires fanout > 0 && |x| == |y| == Pow(fanout, depth)
    requires |Reductions(h, x, fanout, depth)| > 0 ==> Reductions(h, x, fanout, depth)[0] == top
    requires |Reductions(h, y, fanout, depth)| > 0 ==> Reductions(h, y, fanout, depth)[0] == top
    ensures x == y || LevelsCollide(h, x, y, fanout, depth)
  {
    ReducesToOne(h, x, fanout, depth);
    ReducesToOne(h, y, fanout, depth);
    assert Reductions(h, x, fanout, depth) == [top] == Reductions(h, y, fanout, depth);
    EqualReductions(h, x, y, fanout, depth);
  }

  /** The segments on which two trees' digests differ. */
  ghost predicate Differs(h: Hasher, n: nat, a: Contents, b: Contents, i: nat) {
    SegmentDigest(h, Slice(h, n, a, i)) != SegmentDigest(h, Slice(h, n, b, i))
  }

  ghost predicate KeyDiffers(a: Contents, b: Contents, k: Bytes) {
    !((k in a <==> k in b) && (k in a ==> a[k] == b[k]))
  }

  /** A segment is reported exactly when it holds a key on which the maps differ, unless it collides. */
  lemma DifferingSegments(h: Hasher, n: nat, a: Contents, b: Contents, i: nat)
    requires n > 0 && i < n && SmallMap(a) && SmallMap(b)
    ensures Differs(h, n, a, b, i) ==> exists k :: SlotOf(h, n, k) == i && KeyDiffers(a, b, k)
    ensures (exists k :: SlotOf(h, n, k) == i && KeyDiffers(a, b, k)) ==>
              Differs(h, n, a, b, i) || SegmentsCollide(h, Slice(h, n, a, i), Slice(h, n, b, i))
  {
    var x, y := Slice(h, n, a, i), Slice(h, n, b, i);
    SliceSmall(h, n, a, i);
    SliceSmall(h, n, b, i);
    EqualSegmentDigests(h, x, y);
    if forall k :: SlotOf(h, n, k) == i ==> !KeyDiffers(a, b, k) {
      assert forall k :: k in x <==> k in y;
      assert x == y;
    } else {
      var k :| SlotOf(h, n, k) == i && KeyDiffers(a, b, k);
      assert k in a <==> k in x;
      assert k in b <==> k in y;
      assert x != y;
    }
  }

  ghost predicate NoneDiffers(h: Hasher, n: nat, a: Contents, b: Contents) {
    forall i: nat :: i < n ==> !Differs(h, n, a, b, i)
  }

  /** An empty difference means equal contents, or two segments collide. */
  lemma EmptyDifference(h: Hasher, n: nat, a: Contents, b: Contents)
    requires n > 0 && SmallMap(a) && SmallMap(b) && NoneDiffers(h, n, a, b)
    ensures a == b || LeavesCollide(h, n, a, b)
  {
    var x, y := LeafDigests(h, n, a), LeafDigests(h, n, b);
    forall i | 0 <= i < n ensures x[i] == y[i] {
      assert !Differs(h, n, a, b, i);
    }
    EqualLeaves(h, n, a, b);
  }

  /** With no collision: no segment differs, the roots are equal and the maps are equal, all or none. */
  lemma EqualTrees(h: Hasher, fanout: nat, depth: nat, a: Contents, b: Contents)
    requires fanout > 0 && SmallMap(a) && SmallMap(b) && !TreesCollide(h, fanout, depth, a, b)
    ensures a == b <==> TreeRoot(h, fanout, depth, a) == TreeRoot(h, fanout, depth, b)
    ensures a == b <==> NoneDiffers(h, Pow(fanout, depth), a, b)
  {
    PowPositive(fanout, depth);
    if TreeRoot(h, fanout, depth, a) == TreeRoot(h, fanout, depth, b) {
      RootIdentifiesContents(h, fanout, depth, a, b);
    }
    if NoneDiffers(h, Pow(fanout, depth), a, b) {
      EmptyDifference(h, Pow(fanout, depth), a, b);
    }
  }
}
