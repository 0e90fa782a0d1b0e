/** RAMP-Fast items, the pure second-round decision, and the timestamp source. */
module RampCore {
  import opened Bytes

  type Key = Bytes
  type Value = Bytes
  type Timestamp = t: nat | t < U64

  datatype Item = Item(key: Key, ts: Timestamp, siblings: seq<Key>, value: Value)

  type Fetch = (Key, Timestamp)

  // ----- what a reader must fetch again

  /** The highest timestamp at which the first round saw `k`; 0 when it did not see `k`. */
  function Seen(round1: seq<Item>, k: Key): (t: Timestamp)
    ensures forall i :: 0 <= i < |round1| && round1[i].key == k ==> round1[i].ts <= t
    ensures t != 0 ==> exists i :: 0 <= i < |round1| && round1[i].key == k && round1[i].ts == t
  {
    if round1 == [] then 0
    else
      var last := round1[|round1| - 1];
      var before := Seen(round1[..|round1| - 1], k);
      if last.key == k && last.ts > before then last.ts else before
  }

  /** Item `i` of the first round shows that the reader is behind on `k`. */
  predicate Demands(round1: seq<Item>, i: int, k: Key) {
    0 <= i < |round1| && k in round1[i].siblings && Seen(round1, k) < round1[i].ts
  }

  /** The second round must fetch `k` at `t`: some item demands it, and none demands a later version. */
  ghost predicate MustFetch(round1: seq<Item>, k: Key, t: Timestamp) {
    && (exists i :: Demands(round1, i, k) && round1[i].ts == t)
    && (forall i :: Demands(round1, i, k) ==> round1[i].ts <= t)
  }

  /** `ms` lists exactly the required fetches, in key order. */
  ghost predicate IsRepair(round1: seq<Item>, ms: seq<Fetch>) {
    && (forall i, j :: 0 <= i < j < |ms| ==> Less(ms[i].0, ms[j].0))
    && (forall k: Key, t: Timestamp {:trigger MustFetch(round1, k, t)} :: (k, t) in ms <==> MustFetch(round1, k, t))
  }

  /** `required` holds for `k` the highest timestamp demanded by the first `n` items, if any demands it. */
  ghost predicate KeyRequired(round1: seq<Item>, n: nat, k: Key, required: map<Key, Timestamp>) {
    && (forall i :: 0 <= i < n && Demands(round1, i, k) ==> k in required && round1[i].ts <= required[k])
    && (k in required ==> exists i :: 0 <= i < n && Demands(round1, i, k) && round1[i].ts == required[k])
  }

  ghost predicate RequiredSoFar(round1: seq<Item>, n: nat, required: map<Key, Timestamp>) {
    forall k :: KeyRequired(round1, n, k, required)
  }

  function Max(a: Timestamp, b: Timestamp): Timestamp {
    if a < b then b else a
  }

  /** The second-round decision: which versions a reader must fetch so that its snapshot is not fractured. */
  method Select(round1: seq<Item>) returns (missing: seq<Fetch>)
    ensures IsRepair(round1, missing)
  {
    var current := CurrentVersions(round1);
    var required: map<Key, Timestamp> := map[];
    for n := 0 to |round1|
      invariant RequiredSoFar(round1, n, required)
    {
      required := AddDemands(round1, n, current, required);
    }
    missing := ListFetches(required);
    RequiredIsRepair(round1, required, missing);
  }

  function Have(current: map<Key, Timestamp>, k: Key): Timestamp {
    if k in current then current[k] else 0
  }

  method CurrentVersions(round1: seq<Item>) returns (current: map<Key, Timestamp>)
    ensures forall k :: Have(current, k) == Seen(round1, k)
  {
    current := map[];
    for i := 0 to |round1|
      invariant forall k :: Have(current, k) == Seen(round1[..i], k)
    {
      assert round1[..i + 1][..i] == round1[..i];
      var item := round1[i];
      var old' := if item.key in current then current[item.key] else item.ts;
      current := current[item.key := Max(old', item.ts)];
    }
    assert round1[..|round1|] == round1;
  }

  /** What one demand for `k` at `ts` leaves in `required`. */
  function Raise(required: map<Key, Timestamp>, k: Key, ts: Timestamp): map<Key, Timestamp> {
    required[k := if k in required then Max(required[k], ts) else ts]
  }

  /** Merge the demands of item `n`. */
  method AddDemands(round1: seq<Item>, n: nat, current: map<Key, Timestamp>, required: map<Key, Timestamp>)
    returns (required': map<Key, Timestamp>)
    requires n < |round1| && RequiredSoFar(round1, n, required)
    requires forall k :: Have(current, k) == Seen(round1, k)
    ensures RequiredSoFar(round1, n + 1, required')
  {
    required' := RaiseSiblings(round1[n].siblings, round1[n].ts, current, required);
    var m := n + 1;
    forall k ensures KeyRequired(round1, m, k, required') {
      assert KeyRequired(round1, n, k, required);
      assert RaisedBy(round1[n].siblings, round1[n].ts, current, required, required', k);
      RaisedRequired(round1, n, k, required, required');
    }
  }

  method RaiseSiblings(sibs: seq<Key>, ts: Timestamp, current: map<Key, Timestamp>, required: map<Key, Timestamp>)
    returns (required': map<Key, Timestamp>)
    ensures forall k :: RaisedBy(sibs, ts, current, required, required', k)
  {
    required' := required;
    for s := 0 to |sibs|
      invariant forall k :: RaisedBy(sibs[..s], ts, current, required, required', k)
    {
      var sib := sibs[s];
      ghost var before, seen := required', sibs[..s + 1];
      if Have(current, sib) < ts {
        required' := Raise(required', sib, ts);
      }
      forall k ensures RaisedBy(seen, ts, current, required, required', k) {
        assert RaisedBy(sibs[..s], ts, current, required, before, k);
        assert k in seen <==> k in sibs[..s] || k == sib;
      }
    }
    assert sibs[..|sibs|] == sibs;
  }

  predicate RaisedBy(sibs: seq<Key>, ts: Timestamp, current: map<Key, Timestamp>,
                     required: map<Key, Timestamp>, required': map<Key, Timestamp>, k: Key) {
    KeyRaised(required, required', k, ts, k in sibs && Have(current, k) < ts)
  }

  /** `required'` is `required` with a demand for `k` at `ts` merged in when `demanded`. */
  predicate KeyRaised(required: map<Key, Timestamp>, required': map<Key, Timestamp>,
                      k: Key, ts: Timestamp, demanded: bool) {
    var expected := if demanded then Raise(required, k, ts) else required;
    (k in required' <==> k in expected) && (k in required' ==> required'[k] == expected[k])
  }

  lemma RaisedRequired(round1: seq<Item>, n: nat, k: Key, required: map<Key, Timestamp>, required': map<Key, Timestamp>)
    requires n < |round1| && KeyRequired(round1, n, k, required)
    requires KeyRaised(required, required', k, round1[n].ts, Demands(round1, n, k))
    ensures KeyRequired(round1, n + 1, k, required')
  {
    if k in required' {
      if k in required && required'[k] == required[k] {
        var i :| 0 <= i < n && Demands(round1, i, k) && round1[i].ts == required[k];
        assert Demands(round1, i, k) && round1[i].ts == required'[k];
      } else {
        assert Demands(round1, n, k) && round1[n].ts == required'[k];
      }
    }
  }

  function ListFetches(required: map<Key, Timestamp>): (ms: seq<Fetch>)
    ensures forall i, j :: 0 <= i < j < |ms| ==> Less(ms[i].0, ms[j].0)
    ensures |ms| == |SortedKeys(required.Keys)|
    ensures forall i :: 0 <= i < |ms| ==>
      SortedKeys(required.Keys)[i] == ms[i].0 && ms[i].0 in required && ms[i].1 == required[ms[i].0]
  {
    FetchesFor(SortedKeys(required.Keys), required)
  }

  function FetchesFor(ks: seq<Key>, required: map<Key, Timestamp>): (ms: seq<Fetch>)
    requires forall k :: k in ks ==> k in required
    ensures |ms| == |ks|
    ensures forall i :: 0 <= i < |ks| ==> ks[i] in required && ms[i] == (ks[i], required[ks[i]])
  {
    seq(|ks|, i requires 0 <= i < |ks| => (ks[i], required[ks[i]]))
  }

  lemma RequiredIsRepair(round1: seq<Item>, required: map<Key, Timestamp>, ms: seq<Fetch>)
    requires RequiredSoFar(round1, |round1|, required) && ms == ListFetches(required)
    ensures IsRepair(round1, ms)
  {
    forall k: Key, t: Timestamp ensures (k, t) in ms <==> MustFetch(round1, k, t) {
      ListedFetch(required, k, t);
      assert KeyRequired(round1, |round1|, k, required);
      if k in required && required[k] == t {
        var i :| 0 <= i < |round1| && Demands(round1, i, k) && round1[i].ts == required[k];
        assert MustFetch(round1, k, t);
      }
      if MustFetch(round1, k, t) {
        var i :| Demands(round1, i, k) && round1[i].ts == t;
        assert k in required && t <= required[k];
        var j :| 0 <= j < |round1| && Demands(round1, j, k) && round1[j].ts == required[k];
      }
    }
  }

  lemma ListedFetch(required: map<Key, Timestamp>, k: Key, t: Timestamp)
    ensures (k, t) in ListFetches(required) <==> k in required && required[k] == t
  {
    var ks, ms := SortedKeys(required.Keys), ListFetches(required);
    if k in required && required[k] == t {
      var i :| 0 <= i < |ks| && ks[i] == k;
      assert ms[i] == (k, t);
    }
  }

  // ----- the timestamp source

  /** The timestamp of mint number `n` (counting from 1) by coordinator `id`: the id in the high 16 bits,
      the counter's low 48 bits below. */
  function Stamp(id: nat, n: nat): (t: Timestamp)
    requires id < U16
  {
    id * U48 + n % U48
  }

  /** The coordinator's id is above the counter's low 48 bits, so a higher id always wins. */
  lemma StampLayout(id: nat, n: nat)
    requires id < U16
    ensures Stamp(id, n) / U48 == id && Stamp(id, n) % U48 == n % U48
  {
  }

  /** Two mints collide exactly when one coordinator's counter has wrapped its 48 bits in between. */
  lemma StampsCollideIff(id1: nat, n1: nat, id2: nat, n2: nat)
    requires id1 < U16 && id2 < U16
    ensures Stamp(id1, n1) == Stamp(id2, n2) <==> id1 == id2 && n1 % U48 == n2 % U48
  {
  }

  /** A coordinator's next stamp is greater than its last exactly when the counter's low bits do not wrap. */
  lemma StampsIncreaseIff(id: nat, n: nat)
    requires id < U16
    ensures Stamp(id, n) < Stamp(id, n + 1) <==> (n + 1) % U48 != 0
  {
  }

  /** The 2^48-th mint of coordinator 0 is timestamp 0, which a reader cannot tell from "not seen". */
  lemma WrappedStampIsZero()
    ensures Stamp(0, U48) == 0
    ensures Stamp(0, 1) == Stamp(0, U48 + 1)
  {
  }

  class RampClock {
    const id: nat
    var counter: nat

    constructor (id: nat)
      requires id < U16
      ensures this.id == id && counter == 0
    {
      this.id := id;
      counter := 0;
    }

    method Mint() returns (ts: Timestamp)
      requires id < U16
      modifies this
      ensures counter == old(counter) + 1 && ts == Stamp(id, counter)
    {
      counter := counter + 1;
      ts := id * U48 + counter % U48;
    }
  }
}
