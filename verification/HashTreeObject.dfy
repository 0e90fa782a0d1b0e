/** The segmented hash tree: mutable segments with lazily published digests. */
module HashTreeObject {
  import opened Bytes
  import opened Collections
  import opened Digests
  import opened HashTreeSpec

  /** A segment's entries and its digest cell, empty until the digest is first asked for. */
  datatype Segment = Segment(keys: Contents, cell: Option<Digest>)

  ghost predicate SegmentOk(h: Hasher, n: nat, m: Contents, i: nat, s: Segment) {
    && s.keys == Slice(h, n, m, i)
    && (s.cell.Some? ==> s.cell.value == SegmentDigest(h, s.keys))
  }

  ghost predicate SegmentsOk(h: Hasher, m: Contents, segments: seq<Segment>) {
    forall i :: 0 <= i < |segments| ==> SegmentOk(h, |segments|, m, i, segments[i])
  }

  lemma SliceInsert(h: Hasher, n: nat, m: Contents, k: Bytes, v: Digest, i: nat)
    ensures Slice(h, n, m[k := v], i) ==
            if SlotOf(h, n, k) == i then Slice(h, n, m, i)[k := v] else Slice(h, n, m, i)
  {
    var was, now := Slice(h, n, m, i), Slice(h, n, m[k := v], i);
    forall x ensures x in now <==> x in was || (x == k && SlotOf(h, n, k) == i) {
      assert x in now <==> x in m[k := v] && SlotOf(h, n, x) == i;
      assert x in was <==> x in m && SlotOf(h, n, x) == i;
    }
  }

  lemma SliceRemove(h: Hasher, n: nat, m: Contents, k: Bytes, i: nat)
    ensures Slice(h, n, m - {k}, i) == Slice(h, n, m, i) - {k}
    ensures SlotOf(h, n, k) != i ==> Slice(h, n, m - {k}, i) == Slice(h, n, m, i)
  {
    assert forall x :: x in Slice(h, n, m - {k}, i) <==> x in Slice(h, n, m, i) && x != k;
  }

  predicate IsPowerOfTwo(n: nat) {
    n == 1 || (n > 1 && n % 2 == 0 && IsPowerOfTwo(n / 2))
  }

  lemma {:induction false} PowGrows(base: nat, exp: nat, more: nat)
    requires base > 0 && exp <= more
    ensures Pow(base, exp) <= Pow(base, more)
    decreases more
  {
    if exp < more {
      PowGrows(base, exp, more - 1);
      assert base * Pow(base, more - 1) >= Pow(base, more - 1);
    }
  }

  /** The power, exactly when it fits a 64-bit `usize`. */
  method CheckedSegmentCount(fanout: nat, depth: nat) returns (r: Option<nat>)
    ensures r == if Pow(fanout, depth) < U64 then Some(Pow(fanout, depth)) else None
  {
    var count := 1;
    for i := 0 to depth
      invariant count == Pow(fanout, i) < U64
    {
      if count * fanout >= U64 {
        PowGrows(fanout, i + 1, depth);
        return None;
      }
      count := count * fanout;
    }
    r := Some(count);
  }

  lemma FeedNext(fed: Bytes, ps: seq<Pair>, i: nat)
    requires i < |ps|
    ensures fed + KeyBytes(ps[i..]) == fed + U64BE(|ps[i].0|) + ps[i].0 + ps[i].1 + KeyBytes(ps[i + 1..])
  {
    assert ps[i..][1..] == ps[i + 1..];
    Feed(fed, U64BE(|ps[i].0|), ps[i].0, ps[i].1, KeyBytes(ps[i + 1..]));
  }

  lemma Feed(fed: Bytes, n: Bytes, k: Bytes, v: Bytes, rest: Bytes)
    ensures fed + (n + k + v + rest) == fed + n + k + v + rest
  {
  }

  /** What a comparison of two trees must report of segment `i`: that it differs, or, when the shapes differ, that
      it exists. */
  ghost predicate Reported(h: Hasher, fanout: nat, depth: nat, m: Contents,
                           fanout': nat, depth': nat, m': Contents, i: nat) {
    if fanout == fanout' && depth == depth' then i < Pow(fanout, depth) && Differs(h, Pow(fanout, depth), m, m', i)
    else i < Pow(fanout, depth) || i < Pow(fanout', depth')
  }

  /** Feed entries, in order, to the hasher. */
  method FeedAll(ps: seq<Pair>) returns (fed: Bytes)
    ensures fed == KeyBytes(ps)
  {
    fed := [];
    for i := 0 to |ps|
      invariant fed + KeyBytes(ps[i..]) == KeyBytes(ps)
    {
      FeedNext(fed, ps, i);
      fed := fed + U64BE(|ps[i].0|) + ps[i].0 + ps[i].1;
    }
    assert fed + [] == fed;
  }

  /** The digest of a segment's entries in key order. */
  method HashSegment(h: Hasher, keys: Contents) returns (d: Digest)
    ensures d == SegmentDigest(h, keys)
  {
    if keys == map[] {
      return ZERO_HASH;
    }
    var fed := FeedAll(Entries(keys));
    d := h(fed);
  }

  method ReduceLevel(h: Hasher, level: Level, fanout: nat) returns (out: Level)
    requires fanout > 0
    ensures out == Reduce(h, level, fanout)
  {
    if |level| <= 1 {
      return level;
    }
    out := [];
    var i := 0;
    while i < |level|
      invariant i <= |level|
      invariant out + Parents(h, level[i..], fanout) == Parents(h, level, fanout)
    {
      var end := if i + fanout < |level| then i + fanout else |level|;
      var joined := JoinChunk(level[i..end]);
      NextParent(h, level, i, end, fanout);
      assert (out + [h(joined)]) + Parents(h, level[end..], fanout) ==
             out + ([h(joined)] + Parents(h, level[end..], fanout));
      out := out + [h(joined)];
      i := end;
    }
    assert out + [] == out;
  }

  lemma NextParent(h: Hasher, level: Level, i: nat, end: nat, fanout: nat)
    requires fanout > 0 && i < |level|
    requires end == if i + fanout < |level| then i + fanout else |level|
    ensures Parents(h, level[i..], fanout) == [h(Joined(level[i..end]))] + Parents(h, level[end..], fanout)
  {
    if end < |level| {
      assert level[i..][..fanout] == level[i..end] && level[i..][fanout..] == level[end..];
    } else {
      assert level[i..end] == level[i..] && level[end..] == [];
    }
  }

  method JoinChunk(chunk: Level) returns (joined: Bytes)
    ensures joined == Joined(chunk)
  {
    joined := [];
    for i := 0 to |chunk|
      invariant joined + Joined(chunk[i..]) == Joined(chunk)
    {
      assert chunk[i..][1..] == chunk[i + 1..];
      Assoc(joined, chunk[i], Joined(chunk[i + 1..]));
      joined := joined + chunk[i];
    }
    assert joined + [] == joined;
  }

  method ReduceAll(h: Hasher, leaves: Level, fanout: nat, depth: nat) returns (level: Level)
    requires fanout > 0
    ensures level == Reductions(h, leaves, fanout, depth)
  {
    level := leaves;
    for i := 0 to depth
      invariant Reductions(h, level, fanout, depth - i) == Reductions(h, leaves, fanout, depth)
    {
      level := ReduceLevel(h, level, fanout);
    }
  }

  ghost predicate Rising(s: seq<nat>, bound: nat) {
    && (forall i :: 0 <= i < |s| ==> s[i] < bound)
    && (forall i, j :: 0 <= i < j < |s| ==> s[i] < s[j])
  }

  lemma RisingStep(s: seq<nat>, bound: nat)
    requires Rising(s, bound)
    ensures Rising(s, bound + 1) && Rising(s + [bound], bound + 1)
  {
  }

  class HashTree {
    const hash: Hasher
    const fanout: nat
    const depth: nat
    var segments: seq<Segment>
    ghost var contents: Contents

    /** Every entry sits in its segment, and every published digest is the digest of the current entries. */
    ghost predicate Valid()
      reads this
    {
      && IsPowerOfTwo(fanout)
      && |segments| == Pow(fanout, depth) < U64
      && SegmentsOk(hash, contents, segments)
    }

    constructor (hash: Hasher, fanout: nat, depth: nat)
      requires IsPowerOfTwo(fanout) && Pow(fanout, depth) < U64
      ensures Valid() && contents == map[]
      ensures this.hash == hash && this.fanout == fanout && this.depth == depth
    {
      this.hash := hash;
      this.fanout := fanout;
      this.depth := depth;
      segments := seq(Pow(fanout, depth), _ => Segment(map[], None));
      contents := map[];
    }

    method SegmentFor(key: Bytes) returns (i: nat)
      requires Valid()
      ensures i < |segments| && i == SlotOf(hash, |segments|, key)
    {
      PowPositive(fanout, depth);
      var n := |segments|;
      if n <= 1 {
        return 0;
      }
      i := FromBE(hash(key)[..8]) % n;
    }

    method Insert(key: Bytes, value: Digest)
      requires Valid()
      modifies this
      ensures Valid() && contents == old(contents)[key := value]
    {
      var i := SegmentFor(key);
      var s := segments[i];
      ghost var before := contents;
      contents := contents[key := value];
      forall j | 0 <= j < |segments| ensures Slice(hash, |segments|, contents, j) ==
          if j == i then s.keys[key := value] else segments[j].keys
      {
        SliceInsert(hash, |segments|, before, key, value, j);
      }
      if key in s.keys && s.keys[key] == value {
        assert s.keys[key := value] == s.keys;
        return;
      }
      segments := segments[i := Segment(s.keys[key := value], None)];
    }

    method Remove(key: Bytes)
      requires Valid()
      modifies this
      ensures Valid() && contents == old(contents) - {key}
    {
      var i := SegmentFor(key);
      var s := segments[i];
      ghost var before := contents;
      contents := contents - {key};
      forall j | 0 <= j < |segments| ensures Slice(hash, |segments|, contents, j) ==
          if j == i then s.keys - {key} else segments[j].keys
      {
        SliceRemove(hash, |segments|, before, key, j);
      }
      if key in s.keys {
        segments := segments[i := Segment(s.keys - {key}, None)];
      } else {
        assert s.keys - {key} == s.keys;
      }
    }

    /** The digest of a segment's current entries, published in its cell; the zero digest past the end. */
    method SegmentHash(i: nat) returns (d: Digest)
      requires Valid()
      modifies this`segments
      ensures Valid() && |segments| == old(|segments|)
      ensures d == if i < |segments| then SegmentDigest(hash, Slice(hash, |segments|, contents, i)) else ZERO_HASH
    {
      if i >= |segments| {
        return ZERO_HASH;
      }
      var s := segments[i];
      match s.cell
      case Some(published) => d := published;
      case None =>
        d := HashSegment(hash, s.keys);
        segments := segments[i := s.(cell := Some(d))];
    }

    method LeafLevel() returns (level: Level)
      requires Valid()
      modifies this`segments
      ensures Valid() && level == LeafDigests(hash, Pow(fanout, depth), contents)
    {
      var n := |segments|;
      ghost var leaf := HashTreeSpec.Leaf(hash, n, contents);
      level := [];
      for i := 0 to n
        invariant Valid() && |segments| == n
        invariant level == LevelOf(leaf, i)
      {
        var next := SegmentHash(i);
        level := level + [next];
      }
    }

    method Root() returns (d: Digest)
      requires Valid()
      modifies this`segments
      ensures Valid() && d == TreeRoot(hash, fanout, depth, contents)
    {
      var leaves := LeafLevel();
      var level := ReduceAll(hash, leaves, fanout, depth);
      ReducesToOne(hash, leaves, fanout, depth);
      d := level[0];
    }

    /** Whether two trees of one shape disagree on a segment. */
    method Disagree(other: HashTree, i: nat) returns (b: bool)
      requires Valid() && other.Valid() && hash == other.hash
      requires fanout == other.fanout && depth == other.depth && i < |segments|
      modifies this`segments, other`segments
      ensures Valid() && other.Valid()
      ensures b == Differs(hash, Pow(fanout, depth), contents, other.contents, i)
    {
      var mine := SegmentHash(i);
      var theirs := other.SegmentHash(i);
      b := mine != theirs;
    }

    /** Whether `Diff` reports a segment that one of the trees has. */
    method Report(other: HashTree, i: nat) returns (b: bool)
      requires Valid() && other.Valid() && hash == other.hash && (i < |segments| || i < |other.segments|)
      modifies this`segments, other`segments
      ensures Valid() && other.Valid() && b == Reportable(other, i)
    {
      b := true;
      if fanout == other.fanout && depth == other.depth {
        b := Disagree(other, i);
      }
    }

    /** What `Diff` must report of segment `i`. */
    ghost predicate Reportable(other: HashTree, i: nat)
      reads this, other
    {
      Reported(hash, fanout, depth, contents, other.fanout, other.depth, other.contents, i)
    }

    /** The segments that differ, in ascending order; all of them when the shapes differ. */
    method Diff(other: HashTree) returns (out: seq<nat>)
      requires Valid() && other.Valid() && hash == other.hash
      modifies this`segments, other`segments
      ensures Valid() && other.Valid()
      ensures forall i, j :: 0 <= i < j < |out| ==> out[i] < out[j]
      ensures forall i: nat :: i in out <==> Reportable(other, i)
      ensures fanout == other.fanout && depth == other.depth ==>
        forall i: nat :: i in out <==>
          i < Pow(fanout, depth) && Differs(hash, Pow(fanout, depth), contents, other.contents, i)
      ensures !(fanout == other.fanout && depth == other.depth) ==>
        forall i: nat :: i in out <==> i < |segments| || i < |other.segments|
    {
      ghost var mine, theirs := contents, other.contents;
      var most := if |segments| < |other.segments| then |other.segments| else |segments|;
      out := [];
      for i := 0 to most
        invariant Valid() && other.Valid()
        invariant Rising(out, i)
        invariant forall j: nat :: j in out <==>
          j < i && Reported(hash, fanout, depth, mine, other.fanout, other.depth, theirs, j)
      {
        RisingStep(out, i);
        var report := Report(other, i);
        if report {
          out := out + [i];
        }
      }
    }

    /** An equal tree with every digest cell empty. */
    method Clone() returns (c: HashTree)
      requires Valid()
      ensures c.Valid() && fresh(c) && c.contents == contents
      ensures c.hash == hash && c.fanout == fanout && c.depth == depth
      ensures forall i :: 0 <= i < |c.segments| ==> c.segments[i].cell.None?
    {
      c := new HashTree(hash, fanout, depth);
      c.segments := seq(|segments|, i requires 0 <= i < |segments| reads this => Segment(segments[i].keys, None));
      c.contents := contents;
    }
  }
}
