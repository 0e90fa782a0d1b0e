/** Quorum knobs, and when the replicas that answer a read must include one that took the write. */
module Quorum {
  import opened Collections
  import opened RingWalk
  import opened Replication

  datatype Knob = Unset | Count(value: nat)

  const QUORUM_ONE := 0xFFFF_FFFF
  const QUORUM_QUORUM := 0xFFFF_FFFE
  const QUORUM_ALL := 0xFFFF_FFFD
  const QUORUM_DEFAULT := 0xFFFF_FFFC

  function Clamp(k: nat, n: nat): nat {
    if k < 1 then 1 else if k > n then n else k
  }

  function Replicas(nVal: nat): nat {
    if nVal == 0 then 1 else nVal
  }

  function ResolveDefault(bucket: Knob, n: nat): nat {
    match bucket
    case Unset => n / 2 + 1
    case Count(k) =>
      if k == QUORUM_DEFAULT || k == QUORUM_QUORUM then n / 2 + 1
      else if k == QUORUM_ONE then 1
      else if k == QUORUM_ALL then n
      else Clamp(k, n)
  }

  /** How many of `max(nVal, 1)` replicas a knob asks for: always at least one and never more than there are. */
  function Resolve(knob: Knob, nVal: nat, bucket: Knob): (k: nat)
    ensures 1 <= k <= Replicas(nVal)
  {
    var n := Replicas(nVal);
    match knob
    case Unset => ResolveDefault(bucket, n)
    case Count(k) =>
      if k == QUORUM_DEFAULT then ResolveDefault(bucket, n)
      else if k == QUORUM_ONE then 1
      else if k == QUORUM_QUORUM then n / 2 + 1
      else if k == QUORUM_ALL then n
      else Clamp(k, n)
  }

  predicate Defers(knob: Knob) {
    knob == Unset || knob == Count(QUORUM_DEFAULT)
  }

  /** What the symbolic knobs stand for, by their reserved values: a deferring knob is the bucket's, a deferring bucket
      is a quorum, and a quorum is the least strict majority of the replicas, of which there is at least one. */
  lemma KnobsMean(knob: Knob, nVal: nat, bucket: Knob)
    ensures Defers(knob) && !Defers(bucket) ==> Resolve(knob, nVal, bucket) == Resolve(bucket, nVal, Unset)
    ensures Defers(knob) && Defers(bucket) ==>
      Resolve(knob, nVal, bucket) == Resolve(Count(0xFFFF_FFFE), nVal, bucket)
    ensures knob == Count(0xFFFF_FFFE) ==>
      forall k: nat :: 2 * k > (if nVal == 0 then 1 else nVal) <==> Resolve(knob, nVal, bucket) <= k
    ensures knob == Count(0xFFFF_FFFD) ==> Resolve(knob, nVal, bucket) == if nVal == 0 then 1 else nVal
    ensures knob == Count(0xFFFF_FFFF) ==> Resolve(knob, nVal, bucket) == 1
    ensures Defers(Unset) && forall k: nat :: Defers(Count(k)) <==> k == 0xFFFF_FFFC
  {
  }

  predicate Symbolic(k: nat) {
    0xFFFF_FFFC <= k <= 0xFFFF_FFFF
  }

  /** A literal count, given outright or by the bucket behind a deferring knob, asks for one replica when it is 0, for
      all of them when it reaches their number, and for itself in between; asking for more never gets less. */
  lemma CountsMean(k: nat, k': nat, knob: Knob, nVal: nat, bucket: Knob)
    requires !Symbolic(k) && !Symbolic(k') && k <= k' && Defers(knob)
    ensures var n := if nVal == 0 then 1 else nVal;
      && (k == 0 ==> Resolve(Count(k), nVal, bucket) == Resolve(knob, nVal, Count(k)) == 1)
      && (k >= n ==> Resolve(Count(k), nVal, bucket) == Resolve(knob, nVal, Count(k)) == n)
      && (1 <= k <= n ==> Resolve(Count(k), nVal, bucket) == Resolve(knob, nVal, Count(k)) == k)
    ensures Resolve(Count(k), nVal, bucket) <= Resolve(Count(k'), nVal, bucket)
    ensures Resolve(knob, nVal, Count(k)) <= Resolve(knob, nVal, Count(k'))
  {
  }

  // ----- sets of given sizes

  lemma {:induction false} SubsetOfSize(s: set<nat>, k: nat) returns (t: set<nat>)
    requires k <= |s|
    ensures t <= s && |t| == k
  {
    if k == 0 {
      t := {};
    } else {
      var x :| x in s;
      t := SubsetOfSize(s - {x}, k - 1);
      t := t + {x};
    }
  }

  ghost predicate Answer(plan: set<nat>, k: nat, s: set<nat>) {
    s <= plan && |s| == k
  }

  /** Whoever answers a read of `r` replicas shares a replica with whoever took a write of `w`. */
  ghost predicate AlwaysMeet(plan: set<nat>, r: nat, w: nat) {
    forall readers, writers :: Answer(plan, r, readers) && Answer(plan, w, writers) ==> readers * writers != {}
  }

  lemma Overlap(plan: set<nat>, readers: set<nat>, writers: set<nat>)
    requires readers <= plan && writers <= plan && |readers| + |writers| > |plan|
    ensures readers * writers != {}
  {
    if readers * writers == {} {
      assert |readers + writers| == |readers| + |writers|;
      SubsetSize(readers + writers, plan);
    }
  }

  /** Read and write quorums of a plan always meet exactly when together they outnumber it. */
  lemma QuorumsMeetIff(plan: set<nat>, r: nat, w: nat)
    requires r <= |plan| && w <= |plan|
    ensures AlwaysMeet(plan, r, w) <==> r + w > |plan|
  {
    if r + w > |plan| {
      forall readers, writers | Answer(plan, r, readers) && Answer(plan, w, writers)
        ensures readers * writers != {}
      {
        Overlap(plan, readers, writers);
      }
    } else {
      var readers := SubsetOfSize(plan, r);
      var writers := SubsetOfSize(plan - readers, w);
      assert Answer(plan, r, readers) && Answer(plan, w, writers);
    }
  }

  // ----- over replica sets

  lemma {:induction false} PeersAtMost(ps: seq<Point>)
    ensures |Peers(ps)| <= |ps|
  {
    if ps != [] {
      var n := |ps| - 1;
      PeersAtMost(ps[..n]);
      assert ps == ps[..n] + [ps[n]];
      PeersGrow(ps[..n], ps[n]);
    }
  }

  /** Knobs that add up to more than the replica count make every read meet every write, on every ring. */
  lemma ReadsMeetWrites(ring: seq<Point>, hash: nat, nVal: nat, read: Knob, write: Knob, bucket: Knob,
                        readers: set<nat>, writers: set<nat>)
    requires Resolve(read, nVal, bucket) + Resolve(write, nVal, bucket) > Replicas(nVal)
    requires readers <= ReplicaSet(ring, hash, Replicas(nVal)) && |readers| >= Resolve(read, nVal, bucket)
    requires writers <= ReplicaSet(ring, hash, Replicas(nVal)) && |writers| >= Resolve(write, nVal, bucket)
    ensures readers * writers != {}
  {
    PeersAtMost(Take(WalkOrder(ring, hash), Replicas(nVal)));
    Overlap(ReplicaSet(ring, hash, Replicas(nVal)), readers, writers);
  }

  /** Requests that leave the knobs alone, in a bucket that leaves them alone, always meet. */
  lemma DefaultsMeet(nVal: nat, read: Knob, write: Knob, bucket: Knob)
    requires Defers(read) && Defers(write) && (Defers(bucket) || bucket == Count(QUORUM_QUORUM))
    ensures Resolve(read, nVal, bucket) + Resolve(write, nVal, bucket) > Replicas(nVal)
  {
  }

  /** One more answer keeps reads meeting earlier writes across the removal of a peer from the ring. */
  lemma ReadsMeetWritesAcrossRemoval(ring: seq<Point>, hash: nat, n: nat, peer: nat,
                                     readers: set<nat>, writers: set<nat>)
    requires writers <= ReplicaSet(ring, hash, n)
    requires readers <= ReplicaSet(Keep(OnPeer(Without(peer)), ring), hash, n)
    requires |readers| + |writers| > n + 1
    ensures readers * writers != {}
  {
    ReplicaSetWithout(ring, hash, n, peer);
    PeersAtMost(Take(WalkOrder(ring, hash), n + 1));
    Overlap(ReplicaSet(ring, hash, n + 1), readers, writers);
  }

  // ----- over two views of who is up

  /** Whoever answers a read planned over `plan` shares a replica with whoever took a write planned over `plan'`. */
  ghost predicate AlwaysMeetAcross(plan: set<nat>, plan': set<nat>, r: nat, w: nat) {
    forall readers, writers :: Answer(plan, r, readers) && Answer(plan', w, writers) ==> readers * writers != {}
  }

  lemma UnionSize(a: set<nat>, b: set<nat>)
    ensures |a + b| == |a - b| + |b|
  {
    assert a + b == (a - b) + b && (a - b) !! b;
  }

  /** Answers that avoid each other, taken outside the other plan first. */
  lemma Apart(plan: set<nat>, plan': set<nat>, r: nat, w: nat) returns (readers: set<nat>, writers: set<nat>)
    requires r <= |plan| && w <= |plan'| && r + w <= |plan + plan'|
    ensures Answer(plan, r, readers) && Answer(plan', w, writers) && readers * writers == {}
  {
    UnionSize(plan, plan');
    var own, both := plan - plan', plan * plan';
    assert plan == own + both && own !! both;
    if r <= |own| {
      readers := SubsetOfSize(own, r);
      writers := SubsetOfSize(plan', w);
    } else {
      var more := SubsetOfSize(both, r - |own|);
      readers := own + more;
      assert |plan' - more| == |plan'| - |more|;
      writers := SubsetOfSize(plan' - more, w);
    }
  }

  /** Reads over one plan always meet writes over another exactly when together they outnumber the two plans. */
  lemma QuorumsMeetAcrossIff(plan: set<nat>, plan': set<nat>, r: nat, w: nat)
    requires r <= |plan| && w <= |plan'|
    ensures AlwaysMeetAcross(plan, plan', r, w) <==> r + w > |plan + plan'|
  {
    if r + w > |plan + plan'| {
      forall readers, writers | Answer(plan, r, readers) && Answer(plan', w, writers) ensures readers * writers != {} {
        Overlap(plan + plan', readers, writers);
      }
    } else {
      var readers, writers := Apart(plan, plan', r, w);
    }
  }

  lemma LiveSetIs(ring: seq<Point>, hash: nat, n: nat, up: nat -> bool)
    ensures LiveSet(ring, hash, n, up) == Peers(Take(Live(up, WalkOrder(ring, hash)), n))
    ensures |LiveSet(ring, hash, n, up)| <= n
  {
    var walk := WalkOrder(ring, hash);
    var first := Take(Live(up, walk), n);
    DistinctPeers(Clockwise(ring, hash));
    LiveTargetsAre(up, walk, n);
    SamePeers(LiveTargets(up, walk, n), Owners(first));
    forall p ensures p in TargetPeers(Owners(first)) <==> p in Peers(first) {
      OwnersHave(first, p);
    }
    PeersAtMost(first);
  }

  lemma SamePeers(ts: seq<Target>, us: seq<Target>)
    requires PeerList(ts) == PeerList(us)
    ensures TargetPeers(ts) == TargetPeers(us)
  {
    forall p | p in TargetPeers(ts) ensures p in TargetPeers(us) {
      var i :| 0 <= i < |ts| && ts[i].peer == p;
      assert PeerList(ts)[i] == PeerList(us)[i];
    }
    forall p | p in TargetPeers(us) ensures p in TargetPeers(ts) {
      var i :| 0 <= i < |us| && us[i].peer == p;
      assert PeerList(ts)[i] == PeerList(us)[i];
    }
  }

  /** A read and a write that are planned around different sets of down peers always meet exactly when what their
      knobs ask for outnumbers the peers of the two plans together; on one view, adding up to more than the replica
      count is enough. */
  lemma LiveReadsMeetWritesIff(ring: seq<Point>, hash: nat, nVal: nat, up: nat -> bool, up': nat -> bool,
                               read: Knob, write: Knob, bucket: Knob)
    requires Resolve(read, nVal, bucket) <= |LiveSet(ring, hash, Replicas(nVal), up)|
    requires Resolve(write, nVal, bucket) <= |LiveSet(ring, hash, Replicas(nVal), up')|
    ensures var plan, plan' := LiveSet(ring, hash, Replicas(nVal), up), LiveSet(ring, hash, Replicas(nVal), up');
      var r, w := Resolve(read, nVal, bucket), Resolve(write, nVal, bucket);
      && (AlwaysMeetAcross(plan, plan', r, w) <==> r + w > |plan + plan'|)
      && (up == up' && r + w > Replicas(nVal) ==> AlwaysMeetAcross(plan, plan', r, w))
  {
    var plan, plan' := LiveSet(ring, hash, Replicas(nVal), up), LiveSet(ring, hash, Replicas(nVal), up');
    QuorumsMeetAcrossIff(plan, plan', Resolve(read, nVal, bucket), Resolve(write, nVal, bucket));
    LiveSetIs(ring, hash, Replicas(nVal), up);
    assert plan + plan == plan;
  }

  // ----- over the plans themselves

  /** Plan a key once for reads and writes: knobs that add up to more than the replica count make whoever answers a read
      share a replica with whoever took a write. */
  method PlanForBoth(ring: Ring, hash: nat, nVal: nat, read: Knob, write: Knob, bucket: Knob) returns (plan: Plan)
    requires ring != [] && DistinctTokens(ring)
    ensures Resolve(read, nVal, bucket) + Resolve(write, nVal, bucket) > (if nVal == 0 then 1 else nVal) ==>
      AlwaysMeet(PlanPeers(plan), Resolve(read, nVal, bucket), Resolve(write, nVal, bucket))
  {
    ghost var start;
    plan, start := PlanSuccessors(ring, hash, nVal);
    ghost var r, w := Resolve(read, nVal, bucket), Resolve(write, nVal, bucket);
    if r + w > Replicas(nVal) {
      forall readers, writers | Answer(PlanPeers(plan), r, readers) && Answer(PlanPeers(plan), w, writers)
        ensures readers * writers != {}
      {
        ReadsMeetWrites(ring, hash, nVal, read, write, bucket, readers, writers);
      }
    }
  }

  /** Plan a read and a write around the down peers of two views: they always meet exactly when what their knobs ask for
      outnumbers the peers of both plans. */
  method PlanAcross(ring: Ring, hash: nat, nVal: nat, up: nat -> bool, up': nat -> bool,
                    read: Knob, write: Knob, bucket: Knob) returns (plan: Option<Plan>, plan': Option<Plan>)
    requires ring != [] && DistinctTokens(ring)
    ensures plan.Some? && plan'.Some? ==>
      var a, b := PlanPeers(plan.value), PlanPeers(plan'.value);
      var r, w := Resolve(read, nVal, bucket), Resolve(write, nVal, bucket);
      r <= |a| && w <= |b| ==> (AlwaysMeetAcross(a, b, r, w) <==> r + w > |a + b|)
  {
    ghost var start;
    plan, start := PlanWithLiveness(ring, hash, nVal, up);
    plan', start := PlanWithLiveness(ring, hash, nVal, up');
    if plan.Some? && plan'.Some? {
      ghost var r, w := Resolve(read, nVal, bucket), Resolve(write, nVal, bucket);
      if r <= |PlanPeers(plan.value)| && w <= |PlanPeers(plan'.value)| {
        LiveReadsMeetWritesIff(ring, hash, nVal, up, up', read, write, bucket);
      }
    }
  }
}
