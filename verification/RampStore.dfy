/** The flat byte-keyed store under RAMP, its record formats, and the coordinator that runs on it. */
module RampStore {
  import opened Bytes
  import opened Collections
  import opened RampCore
  import opened RampProtocol
  import opened RampReads

  // ----- storage keys

  const VER_TAG: Bytes := [86, 0]
  const PTR_TAG: Bytes := [76, 0]

  function VersionKey(k: Key, ts: Timestamp): Bytes {
    VER_TAG + k + [0] + U64BE(ts)
  }

  function PointerKey(k: Key): Bytes {
    PTR_TAG + k
  }

  lemma VersionKeyInjective(k: Key, ts: Timestamp, k': Key, ts': Timestamp)
    requires VersionKey(k, ts) == VersionKey(k', ts')
    ensures k == k' && ts == ts'
  {
    Regroup(VER_TAG, k, [0], U64BE(ts));
    Regroup(VER_TAG, k', [0], U64BE(ts'));
    SplitEqual(VER_TAG, k + ([0] + U64BE(ts)), VER_TAG, k' + ([0] + U64BE(ts')));
    assert |k + ([0] + U64BE(ts))| == |k| + 9 && |k' + ([0] + U64BE(ts'))| == |k'| + 9;
    SplitEqual(k, [0] + U64BE(ts), k', [0] + U64BE(ts'));
    SplitEqual([0], U64BE(ts), [0], U64BE(ts'));
    U64Injective(ts, ts');
  }

  lemma PointerKeyInjective(k: Key, k': Key)
    requires PointerKey(k) == PointerKey(k')
    ensures k == k'
  {
    SplitEqual(PTR_TAG, k, PTR_TAG, k');
  }

  lemma KeysDisjoint(k: Key, ts: Timestamp, k': Key)
    ensures VersionKey(k, ts) != PointerKey(k')
  {
    assert VersionKey(k, ts)[0] == 86 && PointerKey(k')[0] == 76;
  }

  /** A version is stored under `V`, a zero byte, the key, a zero byte and the stamp in eight bytes; a pointer under
      `L`, a zero byte and the key. */
  lemma KeyLayout(k: Key, ts: Timestamp)
    ensures VersionKey(k, ts) == [86, 0] + k + [0] + U64BE(ts) && PointerKey(k) == [76, 0] + k
  {
  }

  // ----- version bodies

  /** Lengths are written as a u32, clamped when they do not fit. */
  function Clamp32(n: nat): (c: nat)
    ensures c < U32
  {
    if n < U32 then n else U32 - 1
  }

  function SiblingBytes(siblings: seq<Key>): Bytes {
    if siblings == [] then []
    else U32BE(Clamp32(|siblings[0]|)) + siblings[0] + SiblingBytes(siblings[1..])
  }

  function BodyBytes(siblings: seq<Key>, value: Value): Bytes {
    U32BE(Clamp32(|siblings|)) + SiblingBytes(siblings) + value
  }

  lemma {:induction false} SiblingLayout(siblings: seq<Key>, parts: seq<Bytes>)
    requires |parts| == |siblings|
    requires forall i :: 0 <= i < |siblings| ==>
      parts[i] == U32BE(if |siblings[i]| < U32 then |siblings[i]| else U32 - 1) + siblings[i]
    ensures SiblingBytes(siblings) == Flat(parts)
  {
    if siblings != [] {
      FlatFirst(parts);
      SiblingLayout(siblings[1..], parts[1..]);
    }
  }

  /** A body is the number of siblings, each sibling after its length, in batch order, and the value; the number and the
      lengths are four bytes, all ones when they do not fit. */
  lemma BodyLayout(siblings: seq<Key>, parts: seq<Bytes>, value: Value)
    requires |parts| == |siblings|
    requires forall i :: 0 <= i < |siblings| ==>
      parts[i] == U32BE(if |siblings[i]| < U32 then |siblings[i]| else U32 - 1) + siblings[i]
    ensures BodyBytes(siblings, value) ==
      U32BE(if |siblings| < U32 then |siblings| else U32 - 1) + Flat(parts) + value
  {
    SiblingLayout(siblings, parts);
  }

  /** The number of siblings and every sibling's length fit their u32 fields. */
  predicate Fits(siblings: seq<Key>) {
    |siblings| < U32 && forall i :: 0 <= i < |siblings| ==> |siblings[i]| < U32
  }

  /** Read `n` length-prefixed keys off the front; the rest of the bytes is left over. */
  function ParseSiblings(bytes: Bytes, n: nat): (r: Option<(seq<Key>, Bytes)>)
    ensures r.Some? ==> |r.value.0| == n
    decreases n
  {
    if n == 0 then Some(([], bytes))
    else if |bytes| < 4 then None
    else
      var len := FromBE(bytes[..4]);
      if |bytes| < 4 + len then None
      else
        match ParseSiblings(bytes[4 + len..], n - 1)
        case None => None
        case Some((ks, rest)) => Some(([bytes[4..4 + len]] + ks, rest))
  }

  function ParseBody(bytes: Bytes): Option<(seq<Key>, Value)> {
    if |bytes| < 4 then None else ParseSiblings(bytes[4..], FromBE(bytes[..4]))
  }

  lemma ParseFirst(k: Key, rest: Bytes, n: nat)
    requires n > 0 && |k| < U32
    ensures ParseSiblings(U32BE(|k|) + k + rest, n) ==
      match ParseSiblings(rest, n - 1)
      case None => None
      case Some((ks, left)) => Some(([k] + ks, left))
  {
    var bytes := U32BE(|k|) + k + rest;
    U32RoundTrip(|k|);
    assert bytes[..4] == U32BE(|k|);
    assert bytes[4..4 + |k|] == k && bytes[4 + |k|..] == rest;
  }

  lemma {:induction false} ParseBack(siblings: seq<Key>, value: Value)
    requires forall i :: 0 <= i < |siblings| ==> |siblings[i]| < U32
    ensures ParseSiblings(SiblingBytes(siblings) + value, |siblings|) == Some((siblings, value))
  {
    if siblings == [] {
      assert SiblingBytes(siblings) + value == value;
    } else {
      var k, rest := siblings[0], SiblingBytes(siblings[1..]) + value;
      ParseBack(siblings[1..], value);
      assert SiblingBytes(siblings) + value == U32BE(|k|) + k + rest;
      ParseFirst(k, rest, |siblings|);
      assert siblings == [k] + siblings[1..];
    }
  }

  /** A key too long for its length field is cut short by the parse. */
  lemma ParseCut(k: Key, rest: Bytes, n: nat)
    requires n > 0 && |k| >= U32
    ensures var r := ParseSiblings(U32BE(U32 - 1) + k + rest, n);
            r.Some? ==> r.value.0[0] != k
  {
    var bytes := U32BE(U32 - 1) + k + rest;
    U32RoundTrip(U32 - 1);
    assert bytes[..4] == U32BE(U32 - 1);
    var r := ParseSiblings(bytes, n);
    if r.Some? {
      assert r.value.0[0] == bytes[4..4 + (U32 - 1)];
      assert |r.value.0[0]| == U32 - 1;
    }
  }

  lemma {:induction false} ParseLongFails(siblings: seq<Key>, value: Value, i: nat)
    requires i < |siblings| && |siblings[i]| >= U32
    ensures var r := ParseSiblings(SiblingBytes(siblings) + value, |siblings|);
            r.Some? ==> r.value.0 != siblings
    decreases |siblings|
  {
    var k, rest := siblings[0], SiblingBytes(siblings[1..]) + value;
    assert SiblingBytes(siblings) + value == U32BE(Clamp32(|k|)) + k + rest;
    if |k| >= U32 {
      ParseCut(k, rest, |siblings|);
    } else {
      ParseFirst(k, rest, |siblings|);
      ParseLongFails(siblings[1..], value, i - 1);
      assert siblings == [k] + siblings[1..];
      var r := ParseSiblings(rest, |siblings| - 1);
      if r.Some? {
        assert ([k] + r.value.0)[1..] == r.value.0;
      }
    }
  }

  /** A body decodes to what was encoded exactly when its counts and lengths fit. */
  lemma BodyRoundTripIff(siblings: seq<Key>, value: Value)
    ensures ParseBody(BodyBytes(siblings, value)) == Some((siblings, value)) <==> Fits(siblings)
  {
    var n, rest := Clamp32(|siblings|), SiblingBytes(siblings) + value;
    assert BodyBytes(siblings, value) == U32BE(n) + rest;
    assert (U32BE(n) + rest)[..4] == U32BE(n) && (U32BE(n) + rest)[4..] == rest;
    U32RoundTrip(n);
    assert ParseBody(BodyBytes(siblings, value)) == ParseSiblings(rest, n);
    if Fits(siblings) {
      ParseBack(siblings, value);
    } else if |siblings| < U32 {
      var i :| 0 <= i < |siblings| && |siblings[i]| >= U32;
      ParseLongFails(siblings, value, i);
    }
  }

  method EncodeBody(item: Item) returns (out: Bytes)
    ensures out == BodyBytes(item.siblings, item.value)
  {
    out := U32BE(Clamp32(|item.siblings|));
    for i := 0 to |item.siblings|
      invariant out + SiblingBytes(item.siblings[i..]) == U32BE(Clamp32(|item.siblings|)) + SiblingBytes(item.siblings)
    {
      var sib := item.siblings[i];
      assert item.siblings[i..][1..] == item.siblings[i + 1..];
      out := out + U32BE(Clamp32(|sib|)) + sib;
    }
    out := out + item.value;
  }

  method DecodeBody(bytes: Bytes) returns (r: Option<(seq<Key>, Value)>)
    ensures r == ParseBody(bytes)
  {
    if |bytes| < 4 {
      return None;
    }
    assert bytes[0..4] == bytes[..4];
    var count := FromBE(bytes[0..4]);
    var pos := 4;
    PrependNothing(ParseSiblings(bytes[4..], count));
    var siblings: seq<Key> := [];
    for i := 0 to count
      invariant 4 <= pos <= |bytes| && |siblings| == i
      invariant ParseBody(bytes) == Prepend(siblings, ParseSiblings(bytes[pos..], count - i))
    {
      if |bytes| < pos + 4 {
        return None;
      }
      var len := FromBE(bytes[pos..pos + 4]);
      assert bytes[pos..][..4] == bytes[pos..pos + 4];
      if pos + 4 + len > |bytes| {
        return None;
      }
      assert bytes[pos..][4 + len..] == bytes[pos + 4 + len..];
      assert bytes[pos..][4..4 + len] == bytes[pos + 4..pos + 4 + len];
      PrependStep(siblings, bytes[pos + 4..pos + 4 + len], ParseSiblings(bytes[pos + 4 + len..], count - i - 1));
      siblings := siblings + [bytes[pos + 4..pos + 4 + len]];
      pos := pos + 4 + len;
    }
    assert siblings + [] == siblings;
    r := Some((siblings, bytes[pos..]));
  }

  function Prepend(done: seq<Key>, r: Option<(seq<Key>, Bytes)>): Option<(seq<Key>, Bytes)> {
    match r
    case None => None
    case Some((ks, rest)) => Some((done + ks, rest))
  }

  lemma PrependNothing(r: Option<(seq<Key>, Bytes)>)
    ensures Prepend([], r) == r
  {
    if r.Some? {
      assert [] + r.value.0 == r.value.0;
    }
  }

  lemma PrependStep(done: seq<Key>, k: Key, r: Option<(seq<Key>, Bytes)>)
    ensures Prepend(done, Prepend([k], r)) == Prepend(done + [k], r)
  {
    if r.Some? {
      assert done + ([k] + r.value.0) == (done + [k]) + r.value.0;
    }
  }

  // ----- the flat store

  /** The byte map `kv` holds exactly the versions and pointers of `st`, each under its storage key. */
  ghost predicate Represents(kv: map<Bytes, Bytes>, st: Store) {
    (forall k: Key, ts: Timestamp :: VersionMatches(kv, st, k, ts)) && (forall k: Key :: PointerMatches(kv, st, k))
  }

  ghost predicate VersionMatches(kv: map<Bytes, Bytes>, st: Store, k: Key, ts: Timestamp) {
    && ((k, ts) in st.versions <==> VersionKey(k, ts) in kv)
    && ((k, ts) in st.versions ==>
          kv[VersionKey(k, ts)] == BodyBytes(st.versions[(k, ts)].siblings, st.versions[(k, ts)].value))
  }

  ghost predicate PointerMatches(kv: map<Bytes, Bytes>, st: Store, k: Key) {
    && (k in st.pointers <==> PointerKey(k) in kv)
    && (k in st.pointers ==> kv[PointerKey(k)] == U64BE(st.pointers[k]))
  }

  lemma PutVersionRepresents(kv: map<Bytes, Bytes>, st: Store, item: Item)
    requires Represents(kv, st)
    ensures Represents(kv[VersionKey(item.key, item.ts) := BodyBytes(item.siblings, item.value)], PutVersion(st, item))
  {
    var vk := VersionKey(item.key, item.ts);
    var kv', st' := kv[vk := BodyBytes(item.siblings, item.value)], PutVersion(st, item);
    forall k: Key, ts: Timestamp ensures VersionMatches(kv', st', k, ts) {
      assert VersionMatches(kv, st, k, ts);
      if VersionKey(k, ts) == vk {
        VersionKeyInjective(k, ts, item.key, item.ts);
      }
    }
    forall k: Key ensures PointerMatches(kv', st', k) {
      assert PointerMatches(kv, st, k);
      KeysDisjoint(item.key, item.ts, k);
    }
  }

  lemma SetPointerRepresents(kv: map<Bytes, Bytes>, st: Store, key: Key, ts: Timestamp)
    requires Represents(kv, st)
    ensures Represents(kv[PointerKey(key) := U64BE(ts)], st.(pointers := st.pointers[key := ts]))
  {
    var kv', st' := kv[PointerKey(key) := U64BE(ts)], st.(pointers := st.pointers[key := ts]);
    forall k: Key, t: Timestamp ensures VersionMatches(kv', st', k, t) {
      assert VersionMatches(kv, st, k, t);
      KeysDisjoint(k, t, key);
    }
    forall k: Key ensures PointerMatches(kv', st', k) {
      assert PointerMatches(kv, st, k);
      if PointerKey(k) == PointerKey(key) {
        PointerKeyInjective(k, key);
      }
    }
  }

  datatype Lookup = Found(item: Item) | Missing | Corrupt

  /** What reading a version back gives: what was stored, or what its clamped lengths make of it. */
  function Fetched(st: Store, k: Key, ts: Timestamp): Lookup {
    if (k, ts) !in st.versions then Missing
    else
      match ParseBody(BodyBytes(st.versions[(k, ts)].siblings, st.versions[(k, ts)].value))
      case None => Corrupt
      case Some((siblings, value)) => Found(Item(k, ts, siblings, value))
  }

  /** A version is read back as it was stored exactly when its siblings fit the record. */
  lemma FetchedIff(st: Store, k: Key, ts: Timestamp)
    requires (k, ts) in st.versions
    ensures Fetched(st, k, ts) == Found(GetVersion(st, k, ts).value) <==> Fits(st.versions[(k, ts)].siblings)
  {
    BodyRoundTripIff(st.versions[(k, ts)].siblings, st.versions[(k, ts)].value);
  }

  ghost predicate AllFit(st: Store) {
    forall f :: f in st.versions ==> Fits(st.versions[f].siblings)
  }

  /** The production backend: one flat byte map. `model` is the pair of maps it stands for. */
  class FlatStore {
    var kv: map<Bytes, Bytes>
    ghost var model: Store

    ghost predicate Valid()
      reads this
    {
      Represents(kv, model)
    }

    constructor ()
      ensures Valid() && model == Store(map[], map[])
    {
      kv, model := map[], Store(map[], map[]);
    }

    method PutVersion(item: Item)
      requires Valid()
      modifies this
      ensures Valid() && model == RampProtocol.PutVersion(old(model), item)
    {
      var body := EncodeBody(item);
      PutVersionRepresents(kv, model, item);
      kv := kv[VersionKey(item.key, item.ts) := body];
      model := RampProtocol.PutVersion(model, item);
    }

    method CommitPointer(key: Key, ts: Timestamp)
      requires Valid()
      modifies this
      ensures Valid() && model == RampProtocol.CommitPointer(old(model), key, ts)
    {
      assert PointerMatches(kv, model, key);
      var pk := PointerKey(key);
      if pk in kv {
        var cur := kv[pk];
        if |cur| == 8 {
          U64RoundTrip(model.pointers[key]);
          if FromBE(cur) >= ts {
            return;
          }
        }
      }
      SetPointerRepresents(kv, model, key, ts);
      kv := kv[pk := U64BE(ts)];
      model := RampProtocol.CommitPointer(model, key, ts);
    }

    method LatestVisible(key: Key) returns (r: Option<Timestamp>)
      requires Valid()
      ensures r == RampProtocol.LatestVisible(model, key)
    {
      assert PointerMatches(kv, model, key);
      var pk := PointerKey(key);
      if pk in kv && |kv[pk]| == 8 {
        U64RoundTrip(model.pointers[key]);
        return Some(FromBE(kv[pk]));
      }
      r := None;
    }

    method GetVersion(key: Key, ts: Timestamp) returns (r: Lookup)
      requires Valid()
      ensures r == Fetched(model, key, ts)
    {
      assert VersionMatches(kv, model, key, ts);
      var vk := VersionKey(key, ts);
      if vk !in kv {
        return Missing;
      }
      var body := DecodeBody(kv[vk]);
      if body.None? {
        return Corrupt;
      }
      r := Found(Item(key, ts, body.value.0, body.value.1));
    }
  }

  // ----- the coordinator: both protocols run without interruption

  /** The store after preparing the first `n` writes of a batch. */
  function PrepareAll(st: Store, ts: Timestamp, writes: seq<Write>, n: nat): Store
    requires n <= |writes|
  {
    if n == 0 then st
    else PutVersion(PrepareAll(st, ts, writes, n - 1), PreparedItem(Writer(ts, writes, n - 1, 0, false), n - 1))
  }

  /** The store after committing the first `n` keys of a batch. */
  function CommitAll(st: Store, ts: Timestamp, writes: seq<Write>, n: nat): Store
    requires n <= |writes|
  {
    if n == 0 then st else CommitPointer(CommitAll(st, ts, writes, n - 1), writes[n - 1].key, ts)
  }

  /** What an uninterrupted write leaves: every key of the batch holds the batch's last value for it at `ts`,
      nothing at another timestamp changed, and each pointer is the later of its old value and `ts`. */
  lemma {:induction false} PrepareAllVersions(st: Store, ts: Timestamp, writes: seq<Write>, n: nat,
                                              k: Key, t: Timestamp)
    requires n <= |writes|
    ensures PrepareAll(st, ts, writes, n).pointers == st.pointers
    ensures t != ts || !Writes(writes[..n], k) ==>
      ((k, t) in PrepareAll(st, ts, writes, n).versions <==> (k, t) in st.versions) &&
      ((k, t) in st.versions ==> PrepareAll(st, ts, writes, n).versions[(k, t)] == st.versions[(k, t)])
    ensures t == ts && Writes(writes[..n], k) ==>
      && (k, t) in PrepareAll(st, ts, writes, n).versions
      && PrepareAll(st, ts, writes, n).versions[(k, t)] == Body(Siblings(writes, k), LastValue(writes[..n], k))
  {
    if n > 0 {
      PrepareAllVersions(st, ts, writes, n - 1, k, t);
      assert writes[..n][..n - 1] == writes[..n - 1];
      assert Writes(writes[..n], k) <==> Writes(writes[..n - 1], k) || writes[n - 1].key == k by {
        assert writes[..n][n - 1] == writes[n - 1];
        assert forall i :: 0 <= i < n - 1 ==> writes[..n][i] == writes[..n - 1][i];
      }
    }
  }

  /** The value the last write to `k` carries (empty when the batch does not write `k`). */
  function LastValue(writes: seq<Write>, k: Key): Value {
    if writes == [] then []
    else if writes[|writes| - 1].key == k then writes[|writes| - 1].value
    else LastValue(writes[..|writes| - 1], k)
  }

  lemma {:induction false} CommitAllPointers(st: Store, ts: Timestamp, writes: seq<Write>, n: nat, k: Key)
    requires n <= |writes|
    ensures CommitAll(st, ts, writes, n).versions == st.versions
    ensures LatestVisible(CommitAll(st, ts, writes, n), k) ==
      if !Writes(writes[..n], k) then LatestVisible(st, k)
      else if k in st.pointers then Some(Max(st.pointers[k], ts)) else Some(ts)
  {
    if n > 0 {
      CommitAllPointers(st, ts, writes, n - 1, k);
      assert Writes(writes[..n], k) <==> Writes(writes[..n - 1], k) || writes[n - 1].key == k by {
        assert writes[..n][n - 1] == writes[n - 1];
        assert forall i :: 0 <= i < n - 1 ==> writes[..n][i] == writes[..n - 1][i];
      }
    }
  }

  /** A world in which writer `w` has this much of its batch behind it and is not in the middle of a commit. */
  ghost predicate At(x: World, w: nat, ts: Timestamp, writes: seq<Write>, prepared: nat, committed: nat) {
    w in x.writers && x.writers[w] == Writer(ts, writes, prepared, committed, false)
  }

  lemma {:induction false} PreparePath(x: World, w: nat, ts: Timestamp, writes: seq<Write>, n: nat)
    returns (path: seq<World>, x': World)
    requires At(x, w, ts, writes, 0, 0) && n <= |writes|
    ensures WriterPath(path, x, x') && At(x', w, ts, writes, n, 0)
    ensures x'.store == PrepareAll(x.store, ts, writes, n) && x'.clocks == x.clocks
  {
    if n == 0 {
      return [x], x;
    }
    var x1;
    path, x1 := PreparePath(x, w, ts, writes, n - 1);
    x' := x1.(store := PutVersion(x1.store, PreparedItem(x1.writers[w], n - 1)),
              writers := x1.writers[w := x1.writers[w].(prepared := n)]);
    PathExtends(path, x, x1, x', Prepare(w));
    path := path + [x'];
  }

  /** A commit nothing comes between is reading the pointer and, if it is behind, writing it. */
  lemma CommitOne(path: seq<World>, x: World, x1: World, w: nat, ts: Timestamp, writes: seq<Write>, n: nat)
    returns (path': seq<World>, x': World)
    requires WriterPath(path, x, x1) && At(x1, w, ts, writes, |writes|, n) && n < |writes|
    ensures WriterPath(path', x, x') && At(x', w, ts, writes, |writes|, n + 1)
    ensures x'.store == CommitPointer(x1.store, writes[n].key, ts) && x'.clocks == x1.clocks
  {
    var wr, k := x1.writers[w], writes[n].key;
    if k in x1.store.pointers && x1.store.pointers[k] >= ts {
      x' := x1.(writers := x1.writers[w := wr.(committed := n + 1)]);
      PathExtends(path, x, x1, x', Compare(w));
      path' := path + [x'];
    } else {
      var x2 := x1.(writers := x1.writers[w := wr.(putting := true)]);
      PathExtends(path, x, x1, x2, Compare(w));
      x' := x2.(store := SetPointer(x2.store, k, ts), writers := x2.writers[w := wr.(committed := n + 1)]);
      PathExtends(path + [x2], x, x2, x', Put(w));
      path' := path + [x2] + [x'];
    }
  }

  lemma {:induction false} CommitPath(path: seq<World>, x: World, x1: World, w: nat, ts: Timestamp,
                                      writes: seq<Write>, n: nat) returns (path': seq<World>, x': World)
    requires WriterPath(path, x, x1) && At(x1, w, ts, writes, |writes|, 0) && n <= |writes|
    ensures WriterPath(path', x, x') && At(x', w, ts, writes, |writes|, n)
    ensures x'.store == CommitAll(x1.store, ts, writes, n) && x'.clocks == x1.clocks
    decreases n
  {
    if n == 0 {
      return path, x1;
    }
    var x2;
    path', x2 := CommitPath(path, x, x1, w, ts, writes, n - 1);
    path', x' := CommitOne(path', x, x2, w, ts, writes, n - 1);
  }

  lemma JoinPaths(a: seq<World>, b: seq<World>, x: World, y: World, z: World)
    requires WriterPath(a, x, y) && WriterPath(b, y, z)
    ensures WriterPath(a + b[1..], x, z)
  {
    var path := a + b[1..];
    forall i: nat ensures WriterStepAt(path, i) {
      assert WriterStepAt(a, i);
      if i + 1 >= |a| {
        assert WriterStepAt(b, i + 1 - |a|);
      }
    }
  }

  lemma FreshWriter(writers: map<nat, Writer>) returns (w: nat)
    ensures w !in writers
  {
    var ids := writers.Keys;
    w := 0;
    while w in ids
      invariant forall v :: v in writers && v !in ids ==> v < w
      invariant ids <= writers.Keys
      decreases ids
    {
      ids := ids - {w};
      w := w + 1;
    }
  }

  /** An uninterrupted write is a run of the protocol's writer steps: begin, prepare every version, read and write
      every pointer. It leaves every key of the batch visible at its stamp or later. */
  lemma WriteFollowsProtocol(x: World, id: nat, ts: Timestamp, writes: seq<Write>)
    returns (path: seq<World>, x': World)
    requires WorldInv(x) && writes != [] && id < U16 && Counter(x.clocks, id) + 1 < U48
    requires ts == Stamp(id, Counter(x.clocks, id) + 1)
    ensures WriterPath(path, x, x') && WorldInv(x') && Grows(x, x')
    ensures x'.store == CommitAll(PrepareAll(x.store, ts, writes, |writes|), ts, writes, |writes|)
    ensures Counter(x'.clocks, id) == Counter(x.clocks, id) + 1
    ensures forall k :: Writes(writes, k) ==> PointerAt(x', k, ts)
  {
    var w := FreshWriter(x.writers);
    var n := Counter(x.clocks, id) + 1;
    var x1 := x.(clocks := x.clocks[id := n], writers := x.writers[w := Writer(ts, writes, 0, 0, false)]);
    assert WriterPath([x], x, x);
    PathExtends([x], x, x, x1, Begin(w, id, writes));
    var more, x2 := PreparePath(x1, w, ts, writes, |writes|);
    JoinPaths([x] + [x1], more, x, x1, x2);
    path, x' := CommitPath([x] + [x1] + more[1..], x, x2, w, ts, writes, |writes|);
    PathKeeps(path, x, x');
    forall k | Writes(writes, k) ensures PointerAt(x', k, ts) {
      CommitAllPointers(x2.store, ts, writes, |writes|, k);
      assert writes[..|writes|] == writes;
    }
  }

  /** A batch whose key count and key lengths fit the record format. */
  predicate SmallBatch(writes: seq<Write>) {
    |writes| < U32 && forall i :: 0 <= i < |writes| ==> |writes[i].key| < U32
  }

  lemma {:induction false} SiblingsFit(writes: seq<Write>, k: Key)
    requires SmallBatch(writes)
    ensures Fits(Siblings(writes, k)) && |Siblings(writes, k)| <= |writes|
  {
    if writes != [] {
      SiblingsFit(writes[..|writes| - 1], k);
    }
  }

  lemma {:induction false} WriteFits(st: Store, ts: Timestamp, writes: seq<Write>, n: nat)
    requires AllFit(st) && SmallBatch(writes) && n <= |writes|
    ensures AllFit(PrepareAll(st, ts, writes, n))
  {
    if n > 0 {
      WriteFits(st, ts, writes, n - 1);
      SiblingsFit(writes, writes[n - 1].key);
    }
  }

  datatype ReadResult =
    | Read(values: map<Key, Value>, rounds: nat)
    | DanglingVersion(key: Key, ts: Timestamp)
    | CorruptVersion(key: Key, ts: Timestamp)

  lemma {:induction false} Round1OfOk(x: World, keys: seq<Key>)
    requires WorldInv(x)
    ensures Round1Ok(x, Round1Of(x.store, keys)) && Ordered(Round1Of(x.store, keys))
  {
    var round1 := Round1Of(x.store, keys);
    Round1Items(x, keys, []);
    forall i | 0 <= i < |round1|
      ensures ItemOk(x, round1[i]) && round1[i].key in x.store.pointers
        && round1[i].ts == x.store.pointers[round1[i].key]
    {
      assert VisibleItem(x.store, keys, round1[i]);
      assert PointerInv(x, round1[i].key);
    }
  }

  /** The item is what the store gives for its key and stamp. */
  ghost predicate ReadBack(st: Store, item: Item) {
    Fetched(st, item.key, item.ts) == Found(item)
  }

  /** Every item held is under its own key, and is what the store gives for it. */
  ghost predicate AllReadBack(st: Store, chosen: map<Key, Item>) {
    forall k :: k in chosen ==> chosen[k].key == k && ReadBack(st, chosen[k])
  }

  lemma OverlayReadBack(st: Store, round1: seq<Item>)
    requires forall i :: 0 <= i < |round1| ==> ReadBack(st, round1[i])
    ensures AllReadBack(st, Overlay(round1))
  {
    forall k | k in Overlay(round1) ensures Overlay(round1)[k].key == k && ReadBack(st, Overlay(round1)[k]) {
      OverlayHolds(round1, k);
    }
  }

  /** Round one: the visible version of every key, in the order asked. */
  method FirstRound(store: FlatStore, keys: seq<Key>) returns (r: Option<ReadResult>, round1: seq<Item>)
    requires store.Valid()
    ensures r.Some? ==> Failure(store.model, r.value)
    ensures r.Some? && r.value.DanglingVersion? ==>
      r.value.key in keys && LatestVisible(store.model, r.value.key) == Some(r.value.ts)
    ensures r.None? && AllFit(store.model) ==> round1 == Round1Of(store.model, keys)
    ensures forall i :: 0 <= i < |round1| ==> ReadBack(store.model, round1[i])
  {
    round1 := [];
    for i := 0 to |keys|
      invariant forall j :: 0 <= j < |round1| ==> ReadBack(store.model, round1[j])
      invariant AllFit(store.model) ==> round1 == Round1Of(store.model, keys[..i])
    {
      assert keys[..i + 1][..i] == keys[..i];
      var latest := store.LatestVisible(keys[i]);
      if latest.Some? {
        if (keys[i], latest.value) in store.model.versions {
          FetchedIff(store.model, keys[i], latest.value);
        }
        var item := store.GetVersion(keys[i], latest.value);
        match item
        case Missing => return Some(DanglingVersion(keys[i], latest.value)), round1;
        case Corrupt => return Some(CorruptVersion(keys[i], latest.value)), round1;
        case Found(found) => round1 := round1 + [found];
      }
    }
    assert keys[..|keys|] == keys;
    r := None;
  }

  /** What a failed read says about the store: a version that is not there, or one that did not fit its record. */
  ghost predicate Failure(st: Store, r: ReadResult) {
    match r
    case Read(_, _) => false
    case DanglingVersion(k, ts) => (k, ts) !in st.versions
    case CorruptVersion(k, ts) => (k, ts) in st.versions && !Fits(st.versions[(k, ts)].siblings)
  }

  method OverlayItems(round1: seq<Item>) returns (chosen: map<Key, Item>)
    ensures chosen == Overlay(round1)
  {
    chosen := map[];
    for i := 0 to |round1|
      invariant chosen == Overlay(round1[..i])
    {
      assert round1[..i + 1][..i] == round1[..i];
      chosen := chosen[round1[i].key := round1[i]];
    }
    assert round1[..|round1|] == round1;
  }

  /** The store is one the protocol can be in, `x` being the rest of the world, and everything in it fits. */
  ghost predicate Sound(x: World, st: Store) {
    WorldInv(x) && x.store == st && AllFit(st)
  }

  /** Round two: fetch exactly the missing versions and overlay them. */
  method SecondRound(store: FlatStore, missing: seq<Fetch>, chosen0: map<Key, Item>,
                     ghost x: World, ghost round1: seq<Item>)
    returns (r: Option<ReadResult>, chosen: map<Key, Item>)
    requires store.Valid()
    ensures r.Some? ==> Failure(store.model, r.value)
    ensures missing == [] ==> r.None? && chosen == chosen0
    ensures AllReadBack(store.model, chosen0) ==> AllReadBack(store.model, chosen)
    ensures Sound(x, store.model) && RepairOk(x, round1, missing, 0, chosen0) ==>
      r.None? && RepairOk(x, round1, missing, |missing|, chosen)
  {
    chosen := chosen0;
    for i := 0 to |missing|
      invariant i == 0 ==> chosen == chosen0
      invariant AllReadBack(store.model, chosen0) ==> AllReadBack(store.model, chosen)
      invariant Sound(x, store.model) && RepairOk(x, round1, missing, 0, chosen0) ==>
        RepairOk(x, round1, missing, i, chosen)
    {
      var (k, ts) := missing[i];
      if Sound(x, store.model) && RepairOk(x, round1, missing, 0, chosen0) {
        RepairStep(x, round1, missing, i, chosen);
      }
      if (k, ts) in store.model.versions {
        FetchedIff(store.model, k, ts);
      }
      var item := store.GetVersion(k, ts);
      match item
      case Missing => return Some(DanglingVersion(k, ts)), chosen;
      case Corrupt => return Some(CorruptVersion(k, ts)), chosen;
      case Found(found) => chosen := chosen[k := found];
    }
    r := None;
  }

  /** The read path over the flat store. Whenever the store is one the protocol can be in (`x` is a witness), the
      read succeeds, its snapshot is fracture-free and no older than the pointers, and it takes one round exactly
      when nothing was missing. */
  method ReadRounds(store: FlatStore, keys: seq<Key>, ghost x: World)
    returns (r: ReadResult, ghost chosen: map<Key, Item>)
    requires store.Valid()
    ensures !r.Read? ==> Failure(store.model, r)
    ensures r.Read? ==> r.values == Snapshot(chosen) && 1 <= r.rounds <= 2
    ensures r.Read? ==> Returns(store.model, chosen, r.values)
    ensures r.Read? && AllFit(store.model) ==> (r.rounds == 1 <==> IsRepair(Round1Of(store.model, keys), []))
    ensures Sound(x, store.model) ==> r.Read? && GoodRead(x, keys, chosen)
    ensures AllFit(store.model) && IsRepair(Round1Of(store.model, keys), []) && AllVisible(store.model, keys) ==>
      r.Read? && chosen == Overlay(Round1Of(store.model, keys))
  {
    chosen := map[];
    var bad, round1 := FirstRound(store, keys);
    if bad.Some? {
      if Sound(x, store.model) {
        VisibleIsStored(x, bad.value);
      }
      return bad.value, chosen;
    }
    var missing := Select(round1);
    EmptyRepair(round1, missing);
    var picked := OverlayItems(round1);
    OverlayReadBack(store.model, round1);
    if Sound(x, store.model) {
      Round1OfOk(x, keys);
      OverlayChosen(x, round1, missing);
    }
    bad, picked := SecondRound(store, missing, picked, x, round1);
    if bad.Some? {
      return bad.value, chosen;
    }
    chosen := picked;
    ReturnsHeld(store.model, chosen, Snapshot(picked));
    if Sound(x, store.model) {
      RepairIsGoodRead(x, keys, missing, chosen);
    }
    r := Read(Snapshot(picked), if missing == [] then 1 else 2);
  }

  /** Every visible version that the read asks for is there. */
  ghost predicate AllVisible(st: Store, keys: seq<Key>) {
    forall k :: k in keys && k in st.pointers ==> (k, st.pointers[k]) in st.versions
  }

  /** A read returns the values of the versions it holds; each is the value that is stored, if the record fits. */
  ghost predicate Returns(st: Store, chosen: map<Key, Item>, values: map<Key, Value>) {
    && values.Keys == chosen.Keys
    && (forall k :: k in chosen ==> values[k] == chosen[k].value)
    && (forall k :: k in chosen ==> (k, chosen[k].ts) in st.versions)
    && (forall k :: k in chosen && Fits(st.versions[(k, chosen[k].ts)].siblings) ==>
          values[k] == st.versions[(k, chosen[k].ts)].value)
  }

  lemma ReturnsHeld(st: Store, chosen: map<Key, Item>, values: map<Key, Value>)
    requires AllReadBack(st, chosen) && values.Keys == chosen.Keys
    requires forall k :: k in chosen ==> values[k] == chosen[k].value
    ensures Returns(st, chosen, values)
  {
    forall k | k in chosen
      ensures (k, chosen[k].ts) in st.versions
      ensures Fits(st.versions[(k, chosen[k].ts)].siblings) ==> values[k] == st.versions[(k, chosen[k].ts)].value
    {
      assert ReadBack(st, chosen[k]);
      FetchedIff(st, k, chosen[k].ts);
    }
  }

  /** `k` was asked for, or is a sibling of a version that was visible when it was. */
  ghost predicate Wanted(st: Store, keys: seq<Key>, k: Key) {
    k in keys || exists y :: y in keys && VisibleSibling(st, y, k)
  }

  /** A snapshot without fractures, of versions that were written, no older than the pointers, and of nothing that was
      not wanted. */
  ghost predicate GoodRead(x: World, keys: seq<Key>, chosen: map<Key, Item>) {
    && FractureFree(chosen) && (forall k :: k in chosen ==> chosen[k].key == k && ItemOk(x, chosen[k]))
    && (forall k :: k in chosen ==> Wanted(x.store, keys, k))
    && (forall k :: k in keys && k in x.store.pointers ==> Holds(chosen, k, x.store.pointers[k]))
  }

  lemma VisibleIsStored(x: World, r: ReadResult)
    requires WorldInv(x) && AllFit(x.store)
    requires r.DanglingVersion? ==> LatestVisible(x.store, r.key) == Some(r.ts)
    ensures !Failure(x.store, r)
  {
    if r.DanglingVersion? {
      assert PointerInv(x, r.key);
      PreparedIsStored(x, r.key, r.ts);
    }
  }

  lemma HeldIsWanted(x: World, keys: seq<Key>, missing: seq<Fetch>, chosen: map<Key, Item>, k: Key)
    requires WorldInv(x) && RepairOk(x, Round1Of(x.store, keys), missing, |missing|, chosen) && k in chosen
    ensures Wanted(x.store, keys, k)
  {
    var round1 := Round1Of(x.store, keys);
    assert HeldOk(x, round1, missing, |missing|, chosen, k);
    Round1Items(x, keys, k);
    if k !in keys {
      var j :| 0 <= j < |missing| && missing[j].0 == k;
      assert (k, missing[j].1) in missing;
      assert MustFetch(round1, k, missing[j].1);
      var i :| Demands(round1, i, k);
      assert VisibleItem(x.store, keys, round1[i]);
      assert VisibleSibling(x.store, round1[i].key, k);
    }
  }

  lemma RepairIsGoodRead(x: World, keys: seq<Key>, missing: seq<Fetch>, chosen: map<Key, Item>)
    requires WorldInv(x) && RepairOk(x, Round1Of(x.store, keys), missing, |missing|, chosen)
    ensures GoodRead(x, keys, chosen)
  {
    var round1 := Round1Of(x.store, keys);
    Round1OfOk(x, keys);
    RepairedIsFractureFree(x, round1, missing, chosen);
    forall k | k in chosen ensures chosen[k].key == k && ItemOk(x, chosen[k]) {
      assert HeldOk(x, round1, missing, |missing|, chosen, k);
    }
    forall k | k in chosen ensures Wanted(x.store, keys, k) {
      HeldIsWanted(x, keys, missing, chosen, k);
    }
    forall k | k in keys && k in x.store.pointers ensures Holds(chosen, k, x.store.pointers[k]) {
      Round1Items(x, keys, k);
      var i :| 0 <= i < |round1| && round1[i].key == k;
      assert Holds(chosen, round1[i].key, Seen(round1, round1[i].key));
    }
  }

  lemma EmptyRepair(round1: seq<Item>, missing: seq<Fetch>)
    requires IsRepair(round1, missing)
    ensures missing == [] <==> IsRepair(round1, [])
  {
    if missing != [] {
      var (k, t) := missing[0];
      assert (k, t) in missing;
      assert MustFetch(round1, k, t);
    }
  }

  // ----- the coordinator

  /** One coordinator and its store. `world` is the state of the protocol that the store is in, with whatever other
      writers have left there. */
  class RampCoordinator {
    const store: FlatStore
    const clock: RampClock
    ghost var world: World

    ghost predicate Valid()
      reads this, store, clock
    {
      && store.Valid() && clock.id < U16
      && WorldInv(world) && world.store == store.model
      && Counter(world.clocks, clock.id) == clock.counter
    }

    constructor (store: FlatStore, clock: RampClock, ghost x: World)
      requires store.Valid() && clock.id < U16
      requires WorldInv(x) && x.store == store.model && Counter(x.clocks, clock.id) == clock.counter
      ensures Valid() && this.store == store && this.clock == clock && world == x
    {
      this.store, this.clock, world := store, clock, x;
    }

    /** PREPARE every version, then COMMIT every pointer; an empty batch is refused without minting. What is left is
        again a state of the protocol, reached by writer steps alone, with the whole batch visible. */
    method Write(writes: seq<Write>) returns (r: Option<Timestamp>)
      requires Valid()
      modifies this, store, clock
      ensures store.Valid() && (r.None? <==> writes == [])
      ensures writes == [] ==> Valid() && world == old(world) && clock.counter == old(clock.counter)
      ensures r.Some? ==>
        && clock.counter == old(clock.counter) + 1 && r.value == Stamp(clock.id, clock.counter)
        && store.model == CommitAll(PrepareAll(old(store.model), r.value, writes, |writes|), r.value, writes, |writes|)
      ensures r.Some? && old(clock.counter) + 1 < U48 ==>
        && Valid() && Grows(old(world), world) && (exists path :: WriterPath(path, old(world), world))
        && forall k :: Writes(writes, k) ==> PointerAt(world, k, r.value)
      ensures old(AllFit(store.model)) && SmallBatch(writes) ==> AllFit(store.model)
    {
      if writes == [] {
        return None;
      }
      var ts := clock.Mint();
      for i := 0 to |writes|
        invariant store.Valid() && clock.counter == old(clock.counter) + 1 && world == old(world)
        invariant store.model == PrepareAll(old(store.model), ts, writes, i)
      {
        store.PutVersion(Item(writes[i].key, ts, Siblings(writes, writes[i].key), writes[i].value));
      }
      ghost var prepared := store.model;
      for i := 0 to |writes|
        invariant store.Valid() && clock.counter == old(clock.counter) + 1 && world == old(world)
        invariant store.model == CommitAll(prepared, ts, writes, i)
      {
        store.CommitPointer(writes[i].key, ts);
      }
      if old(AllFit(store.model)) && SmallBatch(writes) {
        WriteFits(old(store.model), ts, writes, |writes|);
        CommitAllPointers(prepared, ts, writes, |writes|, []);
      }
      if old(clock.counter) + 1 < U48 {
        ghost var path, x := WriteFollowsProtocol(world, clock.id, ts, writes);
        world := x;
      }
      r := Some(ts);
    }

    method Read(keys: seq<Key>) returns (r: ReadResult, ghost chosen: map<Key, Item>)
      requires Valid()
      ensures !r.Read? ==> Failure(store.model, r)
      ensures r.Read? ==> r.values == Snapshot(chosen) && Returns(store.model, chosen, r.values)
      ensures AllFit(store.model) ==> r.Read? && GoodRead(world, keys, chosen)
    {
      r, chosen := ReadRounds(store, keys, world);
    }
  }

  /** Write `i` is the batch's last of `k`, and writes `v`. */
  ghost predicate LastWrite(writes: seq<Write>, i: nat, k: Key, v: Value) {
    i < |writes| && writes[i] == Write(k, v) && forall j :: i < j < |writes| ==> writes[j].key != k
  }

  lemma {:induction false} LastValueIs(writes: seq<Write>, k: Key) returns (i: nat)
    requires Writes(writes, k)
    ensures LastWrite(writes, i, k, LastValue(writes, k))
  {
    var n := |writes| - 1;
    if writes[n].key == k {
      i := n;
    } else {
      var j :| 0 <= j < |writes| && writes[j].key == k;
      assert writes[..n][j].key == k;
      i := LastValueIs(writes[..n], k);
    }
  }

  /** No version has a stamp that was not handed out. */
  lemma NoVersionYet(x: World, id: nat, k: Key, ts: Timestamp)
    requires WorldInv(x) && id < U16 && Counter(x.clocks, id) + 1 < U48 && ts == Stamp(id, Counter(x.clocks, id) + 1)
    ensures (k, ts) !in x.store.versions
  {
    assert VersionInv(x, (k, ts));
    if (k, ts) in x.store.versions {
      var w :| w in x.writers && VersionOf(x.writers[w], k, ts, x.store.versions[(k, ts)]);
      assert WriterInvAt(x, w);
      FreshStamp(x.clocks, id, ts);
    }
  }

  /** What is stored at a write's stamp is what the write's batch has last for that key. */
  lemma WrittenLast(x: World, id: nat, ts: Timestamp, writes: seq<Write>, st: Store, k: Key) returns (i: nat)
    requires WorldInv(x) && id < U16 && Counter(x.clocks, id) + 1 < U48 && ts == Stamp(id, Counter(x.clocks, id) + 1)
    requires st == CommitAll(PrepareAll(x.store, ts, writes, |writes|), ts, writes, |writes|)
    requires (k, ts) in st.versions
    ensures LastWrite(writes, i, k, st.versions[(k, ts)].value)
  {
    assert writes[..|writes|] == writes;
    NoVersionYet(x, id, k, ts);
    PrepareAllVersions(x.store, ts, writes, |writes|, k, ts);
    CommitAllPointers(PrepareAll(x.store, ts, writes, |writes|), ts, writes, |writes|, k);
    i := LastValueIs(writes, k);
  }

  /** A read after a write. Unless the clock wraps or a record does not fit, it succeeds, is fracture-free, and holds
      every key of the batch that it asks for at the write's stamp or later, whatever writers left in the store
      before; what it holds at that stamp is what the batch has last for the key. */
  method WriteThenRead(c: RampCoordinator, writes: seq<Write>, keys: seq<Key>)
    returns (ts: Option<Timestamp>, r: ReadResult, ghost chosen: map<Key, Item>)
    requires c.Valid()
    modifies c, c.store, c.clock
    ensures c.store.Valid() && (ts.None? <==> writes == [])
    ensures if r.Read? then Returns(c.store.model, chosen, r.values) else Failure(c.store.model, r)
    ensures old(c.clock.counter) + 1 < U48 ==> c.Valid()
    ensures old(c.clock.counter) + 1 < U48 && old(AllFit(c.store.model)) && SmallBatch(writes) ==>
      && r.Read? && FractureFree(chosen)
      && (ts.Some? ==> forall k :: k in keys && Writes(writes, k) ==> Holds(chosen, k, ts.value))
      && (ts.Some? ==> forall k :: k in chosen && chosen[k].ts == ts.value ==>
            exists i :: LastWrite(writes, i, k, r.values[k]))
  {
    ts := c.Write(writes);
    r, chosen := ReadRounds(c.store, keys, c.world);
    if old(c.clock.counter) + 1 < U48 && old(AllFit(c.store.model)) && SmallBatch(writes) && ts.Some? {
      forall k | k in keys && Writes(writes, k) ensures Holds(chosen, k, ts.value) {
        assert PointerAt(c.world, k, ts.value);
        assert Holds(chosen, k, c.world.store.pointers[k]);
      }
      forall k | k in chosen && chosen[k].ts == ts.value ensures exists i :: LastWrite(writes, i, k, r.values[k]) {
        ghost var i := WrittenLast(old(c.world), c.clock.id, ts.value, writes, c.store.model, k);
      }
    }
  }
}
