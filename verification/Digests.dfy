/** Content digests and key/digest pairs, shared by the two Merkle structures. */
module Digests {
  import opened Bytes

  type Digest = d: Bytes | |d| == 32 witness Zeros(32)

  function Zeros(n: nat): (z: Bytes)
    ensures |z| == n
  {
    if n == 0 then [] else [0] + Zeros(n - 1)
  }

  const ZERO_HASH: Digest := Zeros(32)

  /** The digest reserved for what is missing is all zero bytes. */
  lemma {:induction false} ZerosAre(n: nat, i: nat)
    requires i < n
    ensures Zeros(n)[i] == 0
  {
    if i > 0 {
      ZerosAre(n - 1, i - 1);
    }
  }

  /** The hash function is a parameter of the model: every result holds for every hash function. */
  type Hasher = Bytes -> Digest

  type Pair = (Bytes, Digest)

  /** The map a sequence of insertions leaves behind: the last value of a key wins. */
  function MapOf(ps: seq<Pair>): (m: map<Bytes, Digest>) {
    if ps == [] then map[] else MapOf(ps[..|ps| - 1])[ps[|ps| - 1].0 := ps[|ps| - 1].1]
  }

  /** Of several pairs with one key the last counts. */
  lemma {:induction false} LastWins(ps: seq<Pair>, i: nat)
    requires i < |ps| && forall j :: i < j < |ps| ==> ps[j].0 != ps[i].0
    ensures ps[i].0 in MapOf(ps) && MapOf(ps)[ps[i].0] == ps[i].1
  {
    var n := |ps| - 1;
    if i < n {
      LastWins(ps[..n], i);
    }
  }

  lemma {:induction false} MapOfConcat(a: seq<Pair>, b: seq<Pair>)
    ensures MapOf(a + b) == MapOf(a) + MapOf(b)
  {
    if b == [] {
      assert a + b == a;
    } else {
      MapOfConcat(a, b[..|b| - 1]);
      assert (a + b)[..|a + b| - 1] == a + b[..|b| - 1];
    }
  }

  lemma {:induction false} MapOfKeys(ps: seq<Pair>, k: Bytes)
    ensures k in MapOf(ps) <==> exists i :: 0 <= i < |ps| && ps[i].0 == k
  {
    if ps != [] {
      MapOfKeys(ps[..|ps| - 1], k);
    }
  }

  /** Counts and key lengths fit the u64 fields of the preimages. */
  predicate SmallMap(m: map<Bytes, Digest>) {
    |m| < U64 && forall k :: k in m ==> |k| < U64
  }

  predicate AscendingPairs(ps: seq<Pair>) {
    forall i, j :: 0 <= i < j < |ps| ==> Less(ps[i].0, ps[j].0)
  }

  lemma AscendingParts(a: seq<Pair>, b: seq<Pair>)
    requires AscendingPairs(a + b)
    ensures AscendingPairs(a) && AscendingPairs(b)
    ensures MapOf(a).Keys !! MapOf(b).Keys
  {
    assert forall i :: 0 <= i < |a| ==> a[i] == (a + b)[i];
    assert forall i :: 0 <= i < |b| ==> b[i] == (a + b)[|a| + i];
    forall k | k in MapOf(a) && k in MapOf(b) ensures false {
      MapOfKeys(a, k);
      MapOfKeys(b, k);
      var i :| 0 <= i < |a| && a[i].0 == k;
      var j :| 0 <= j < |b| && b[j].0 == k;
      assert Less((a + b)[i].0, (a + b)[|a| + j].0);
      LessTrichotomy(k, k);
    }
  }

  function KeyList(ps: seq<Pair>): (ks: seq<Bytes>)
    ensures |ks| == |ps|
    ensures forall i :: 0 <= i < |ps| ==> ks[i] == ps[i].0
  {
    seq(|ps|, i requires 0 <= i < |ps| => ps[i].0)
  }

  lemma {:induction false} AscendingLookup(ps: seq<Pair>, i: nat)
    requires AscendingPairs(ps) && i < |ps|
    ensures ps[i].0 in MapOf(ps) && MapOf(ps)[ps[i].0] == ps[i].1
  {
    var n := |ps| - 1;
    if i < n {
      AscendingLookup(ps[..n], i);
      LessTrichotomy(ps[i].0, ps[n].0);
    }
  }

  lemma KeyListMembers(ps: seq<Pair>, k: Bytes)
    ensures k in KeyList(ps) <==> k in MapOf(ps)
  {
    MapOfKeys(ps, k);
    var ks := KeyList(ps);
    if k in MapOf(ps) {
      var i :| 0 <= i < |ps| && ps[i].0 == k;
      assert ks[i] == k;
    }
    if k in ks {
      var i :| 0 <= i < |ks| && ks[i] == k;
      assert ps[i].0 == k;
    }
  }

  function PairsAt(ks: seq<Bytes>, m: map<Bytes, Digest>): (ps: seq<Pair>)
    requires forall k :: k in ks ==> k in m
    ensures |ps| == |ks|
    ensures forall i :: 0 <= i < |ks| ==> ps[i] == (ks[i], m[ks[i]])
  {
    seq(|ks|, i requires 0 <= i < |ks| => (ks[i], m[ks[i]]))
  }

  /** A sorted map's entries in iteration order. */
  function Entries(m: map<Bytes, Digest>): (ps: seq<Pair>)
    ensures |ps| == |m|
    ensures AscendingPairs(ps)
    ensures MapOf(ps) == m
  {
    var ks := SortedKeys(m.Keys);
    EntriesMap(m, ks, PairsAt(ks, m));
    PairsAt(ks, m)
  }

  lemma EntriesMap(m: map<Bytes, Digest>, ks: seq<Bytes>, ps: seq<Pair>)
    requires Ascending(ks) && |ps| == |ks|
    requires forall k :: k in ks <==> k in m
    requires forall i :: 0 <= i < |ps| ==> ks[i] in m && ps[i] == (ks[i], m[ks[i]])
    ensures MapOf(ps) == m
  {
    assert KeyList(ps) == ks;
    forall k ensures k in MapOf(ps) <==> k in m {
      KeyListMembers(ps, k);
    }
    forall k | k in m ensures MapOf(ps)[k] == m[k] {
      var i :| 0 <= i < |ks| && ks[i] == k;
      AscendingLookup(ps, i);
    }
  }

  /** Ascending pair lists with the same map are the same list. */
  lemma AscendingPairsUnique(a: seq<Pair>, b: seq<Pair>)
    requires AscendingPairs(a) && AscendingPairs(b)
    requires MapOf(a) == MapOf(b)
    ensures a == b
  {
    forall k ensures k in KeyList(a) <==> k in KeyList(b) {
      KeyListMembers(a, k);
      KeyListMembers(b, k);
    }
    AscendingUnique(KeyList(a), KeyList(b));
    forall i | 0 <= i < |a| ensures a[i] == b[i] {
      assert KeyList(a)[i] == KeyList(b)[i];
      AscendingLookup(a, i);
      AscendingLookup(b, i);
    }
  }

  // ----- pairs as hashed

  /** Each key with its length, then its digest. */
  function KeyBytes(keys: seq<Pair>): Bytes {
    if keys == [] then []
    else U64BE(|keys[0].0|) + keys[0].0 + keys[0].1 + KeyBytes(keys[1..])
  }

  predicate SmallKeys(keys: seq<Pair>) {
    |keys| < U64 && forall i :: 0 <= i < |keys| ==> |keys[i].0| < U64
  }

  lemma KeyParseRest(a: Pair, x: Bytes, b: Pair, y: Bytes)
    requires |a.0| == |b.0|
    requires a.0 + (a.1 + x) == b.0 + (b.1 + y)
    ensures a == b && x == y
  {
    SplitEqual(a.0, a.1 + x, b.0, b.1 + y);
    SplitEqual(a.1, x, b.1, y);
  }

  /** Pairs are hashed in order, each as the key's length in eight bytes, the key, and the digest. */
  lemma {:induction false} PairLayout(keys: seq<Pair>, parts: seq<Bytes>)
    requires |parts| == |keys|
    requires forall i :: 0 <= i < |keys| ==> parts[i] == U64BE(|keys[i].0|) + keys[i].0 + keys[i].1
    ensures KeyBytes(keys) == Flat(parts)
  {
    if keys != [] {
      FlatFirst(parts);
      PairLayout(keys[1..], parts[1..]);
    }
  }
}
