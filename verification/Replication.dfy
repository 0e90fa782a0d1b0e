/** Replica planning: the successor walk, and the walk that puts stand-ins in place of peers that are down. */
module Replication {
  import opened Collections
  import opened RingWalk

  datatype Target = Target(peer: nat, dc: string, rack: string, isLocal: bool, isFallback: bool)

  datatype Plan = Successors(primary: Target, n: nat, successors: seq<Target>)

  const PLACEHOLDER := Target(0, "", "", false, false)

  function ReplicaList(plan: Plan): seq<Target> {
    [plan.primary] + plan.successors
  }

  function Owner(p: Point): Target {
    Target(p.peer, p.dc, p.rack, false, false)
  }

  function StandIn(p: Point): Target {
    Owner(p).(isFallback := true)
  }

  function Owners(ps: seq<Point>): (ts: seq<Target>)
    ensures |ts| == |ps| && forall i :: 0 <= i < |ps| ==> ts[i] == Owner(ps[i])
  {
    seq(|ps|, i requires 0 <= i < |ps| => Owner(ps[i]))
  }

  function StandIns(ps: seq<Point>): (ts: seq<Target>)
    ensures |ts| == |ps| && forall i :: 0 <= i < |ps| ==> ts[i] == StandIn(ps[i])
  {
    seq(|ps|, i requires 0 <= i < |ps| => StandIn(ps[i]))
  }

  function PeerList(ts: seq<Target>): (peers: seq<nat>)
    ensures |peers| == |ts| && forall i :: 0 <= i < |ts| ==> peers[i] == ts[i].peer
  {
    seq(|ts|, i requires 0 <= i < |ts| => ts[i].peer)
  }

  function Wanted(n: nat): nat {
    if n == 0 then 1 else n
  }

  // ----- what a plan says

  /** The target is the peer of the point, with its place. */
  predicate Describes(t: Target, p: Point) {
    t.peer == p.peer && t.dc == p.dc && t.rack == p.rack && !t.isLocal
  }

  /** The plan is these points in order, the first of them as its primary. */
  ghost predicate Lists(plan: Plan, ps: seq<Point>) {
    && |plan.successors| + 1 == |ps| && Describes(plan.primary, ps[0])
    && forall i :: 0 <= i < |plan.successors| ==> Describes(plan.successors[i], ps[i + 1])
  }

  function PlanPeers(plan: Plan): set<nat> {
    {plan.primary.peer} + set t | t in plan.successors :: t.peer
  }

  function Least(a: nat, b: nat): nat {
    if a <= b then a else b
  }

  lemma {:induction false} UnrepeatedSize(ps: seq<Point>)
    requires Unrepeated(ps)
    ensures |Peers(ps)| == |ps|
  {
    if ps != [] {
      var init, last := ps[..|ps| - 1], ps[|ps| - 1];
      assert ps == init + [last];
      LastIsNew(init, last);
      UnrepeatedSize(init);
      PeersGrow(init, last);
    }
  }

  lemma LastIsNew(ps: seq<Point>, p: Point)
    requires Unrepeated(ps + [p])
    ensures Unrepeated(ps) && p.peer !in Peers(ps)
  {
    var all := ps + [p];
    forall i, j | 0 <= i < j < |ps| ensures ps[i].peer != ps[j].peer {
      assert all[i].peer != all[j].peer;
    }
    forall i | 0 <= i < |ps| ensures ps[i].peer != p.peer {
      assert all[i].peer != all[|ps|].peer;
    }
  }

  /** A walk has as many points as the ring has peers. */
  lemma WalkSize(ring: seq<Point>, start: nat)
    requires start <= |ring|
    ensures |Distinct(Rotate(ring, start))| == |Peers(ring)|
  {
    var turned := Rotate(ring, start);
    DistinctPeers(turned);
    UnrepeatedSize(Distinct(turned));
    assert ring == ring[..start] + ring[start..];
    assert forall p :: p in turned <==> p in ring;
    assert Peers(turned) == Peers(ring);
  }

  /** The live part of a walk has as many points as the ring has live peers. */
  lemma LiveSize(ring: seq<Point>, start: nat, up: nat -> bool)
    requires start <= |ring|
    ensures |Live(up, Distinct(Rotate(ring, start)))| == |set p | p in Peers(ring) && up(p)|
  {
    var kept := Keep(OnPeer(up), Rotate(ring, start));
    DistinctKeeps(up, Rotate(ring, start));
    DistinctPeers(kept);
    UnrepeatedSize(Distinct(kept));
    assert ring == ring[..start] + ring[start..];
    forall p ensures p in Peers(kept) <==> p in Peers(ring) && up(p) {
      if p in Peers(kept) {
        var q :| q in kept && q.peer == p;
        KeepMembers(OnPeer(up), Rotate(ring, start), q);
      }
      if p in Peers(ring) && up(p) {
        var q :| q in ring && q.peer == p;
        KeepMembers(OnPeer(up), Rotate(ring, start), q);
      }
    }
    assert Peers(kept) == set p | p in Peers(ring) && up(p);
  }

  /** A plan that lists points has their peers. */
  lemma ListsPeers(plan: Plan, ps: seq<Point>)
    requires Lists(plan, ps)
    ensures PlanPeers(plan) == Peers(ps)
  {
    forall p | p in Peers(ps) ensures p in PlanPeers(plan) {
      var i :| 0 <= i < |ps| && ps[i].peer == p;
      assert i > 0 ==> plan.successors[i - 1] in plan.successors;
    }
    forall p | p in PlanPeers(plan) ensures p in Peers(ps) {
      assert ps[0] in ps;
      if p != plan.primary.peer {
        var i :| 0 <= i < |plan.successors| && plan.successors[i].peer == p;
        assert ps[i + 1] in ps;
      }
    }
  }

  // ----- the key's slot

  /** The slot that owns a hash; where several points share the token, any of them. */
  method PrimaryIndex(ring: Ring, hash: nat) returns (r: Option<nat>)
    ensures r.None? <==> ring == []
    ensures r.Some? ==> IsPrimary(ring, hash, r.value)
  {
    if ring == [] {
      return None;
    }
    if i: nat :| i < |ring| && ring[i].token == hash {
      return Some(i);
    }
    var i := 0;
    while i < |ring| && ring[i].token < hash
      invariant i <= |ring|
      invariant forall j :: 0 <= j < i ==> ring[j].token < hash
    {
      i := i + 1;
    }
    r := Some(if i < |ring| then i else 0);
  }

  lemma RotateAt(ring: seq<Point>, start: nat, step: nat)
    requires start < |ring| && step < |ring|
    ensures Rotate(ring, start)[step] == ring[(start + step) % |ring|]
  {
    WrapAround(start + step, |ring|);
  }

  lemma WrapAround(i: nat, n: nat)
    requires i < 2 * n
    ensures i % n == if i < n then i else i - n
  {
  }

  // ----- the plain walk

  predicate HasPeer(ts: seq<Target>, peer: nat) {
    exists t :: t in ts && t.peer == peer
  }

  lemma NextOwner(walk: seq<Point>, step: nat, chosen: seq<Target>)
    requires step < |walk| && chosen == Owners(Distinct(walk[..step]))
    ensures Owners(Distinct(walk[..step + 1])) ==
            if HasPeer(chosen, walk[step].peer) then chosen else chosen + [Owner(walk[step])]
  {
    DistinctStep(walk, step);
    OwnersHave(Distinct(walk[..step]), walk[step].peer);
  }

  lemma TurnedOwner(ring: seq<Point>, start: nat, step: nat, chosen: seq<Target>)
    requires start < |ring| && step < |ring| && chosen == Owners(Distinct(Rotate(ring, start)[..step]))
    ensures var pt := ring[(start + step) % |ring|];
            Owners(Distinct(Rotate(ring, start)[..step + 1])) ==
            if HasPeer(chosen, pt.peer) then chosen else chosen + [Owner(pt)]
  {
    RotateAt(ring, start, step);
    NextOwner(Rotate(ring, start), step, chosen);
  }

  lemma OwnersHave(ps: seq<Point>, peer: nat)
    ensures HasPeer(Owners(ps), peer) <==> peer in Peers(ps)
  {
    if peer in Peers(ps) {
      var i :| 0 <= i < |ps| && ps[i].peer == peer;
      assert Owners(ps)[i] in Owners(ps);
    }
  }

  method ChooseOwners(ring: Ring, start: nat, wanted: nat) returns (chosen: seq<Target>)
    requires start < |ring| && wanted > 0
    ensures chosen == Owners(Take(Distinct(Rotate(ring, start)), wanted))
  {
    ghost var walk := Rotate(ring, start);
    chosen := [];
    var step := 0;
    while step < |ring| && |chosen| < wanted
      invariant step <= |ring| && |chosen| <= wanted
      invariant chosen == Owners(Distinct(walk[..step]))
    {
      var pt := ring[(start + step) % |ring|];
      TurnedOwner(ring, start, step, chosen);
      if !HasPeer(chosen, pt.peer) {
        chosen := chosen + [Owner(pt)];
      }
      step := step + 1;
    }
    TakeStops(walk, step, wanted);
  }

  lemma TakeStops(walk: seq<Point>, step: nat, n: nat)
    requires step <= |walk| && |Distinct(walk[..step])| <= n
    requires step == |walk| || |Distinct(walk[..step])| == n
    ensures Take(Distinct(walk), n) == Distinct(walk[..step])
  {
    DistinctPrefix(walk, step);
    if step == |walk| {
      assert walk[..step] == walk;
    }
  }

  /** The first `max(n, 1)` peers of the clockwise walk from the key's slot. */
  method PlanSuccessors(ring: Ring, hash: nat, n: nat) returns (plan: Plan, ghost start: nat)
    ensures plan.n == n
    ensures ring == [] ==> ReplicaList(plan) == [PLACEHOLDER]
    ensures ring != [] ==> IsPrimary(ring, hash, start)
    ensures ring != [] ==> ReplicaList(plan) == Owners(Take(Distinct(Rotate(ring, start)), Wanted(n)))
    ensures ring != [] && DistinctTokens(ring) ==> ReplicaList(plan) == Owners(Take(WalkOrder(ring, hash), Wanted(n)))
    ensures ring == [] ==> plan.primary == Target(0, "", "", false, false) && plan.successors == []
    ensures ring != [] ==> Lists(plan, Take(Distinct(Rotate(ring, start)), if n == 0 then 1 else n))
    ensures ring != [] ==> 1 + |plan.successors| == Least(if n == 0 then 1 else n, |Peers(ring)|)
    ensures !plan.primary.isFallback && forall t :: t in plan.successors ==> !t.isFallback
    ensures ring != [] && DistinctTokens(ring) ==> PlanPeers(plan) == ReplicaSet(ring, hash, if n == 0 then 1 else n)
  {
    start := 0;
    var slot := PrimaryIndex(ring, hash);
    match slot
    case None => plan := Successors(PLACEHOLDER, n, []);
    case Some(i) =>
      start := i;
      var chosen := ChooseOwners(ring, i, Wanted(n));
      SomePeer(Rotate(ring, i), Wanted(n));
      plan := Successors(chosen[0], n, chosen[1..]);
      assert ReplicaList(plan) == chosen;
      if DistinctTokens(ring) {
        RotateIsClockwise(ring, hash, start);
      }
      DescribesOwners(ring, i, Wanted(n), plan, chosen);
  }

  lemma DescribesOwners(ring: seq<Point>, start: nat, n: nat, plan: Plan, chosen: seq<Target>)
    requires start < |ring| && chosen == Owners(Take(Distinct(Rotate(ring, start)), n))
    requires chosen != [] && plan.primary == chosen[0] && plan.successors == chosen[1..]
    ensures Lists(plan, Take(Distinct(Rotate(ring, start)), n)) && |chosen| == Least(n, |Peers(ring)|)
    ensures !plan.primary.isFallback && forall t :: t in plan.successors ==> !t.isFallback
    ensures PlanPeers(plan) == Peers(Take(Distinct(Rotate(ring, start)), n))
  {
    WalkSize(ring, start);
    ListsPeers(plan, Take(Distinct(Rotate(ring, start)), n));
  }

  lemma SomePeer(walk: seq<Point>, n: nat)
    requires walk != [] && n > 0
    ensures Take(Distinct(walk), n) != []
  {
    DistinctPeers(walk);
    assert walk[0].peer in Peers(walk);
  }

  // ----- the walk with stand-ins

  function Live(up: nat -> bool, ps: seq<Point>): seq<Point> {
    Keep(OnPeer(up), ps)
  }

  function Drop(ps: seq<Point>, n: nat): seq<Point> {
    if |ps| <= n then [] else ps[n..]
  }

  /** The live peers among the first `n`, then live ones from beyond as far as needed. */
  function LiveTargets(up: nat -> bool, walk: seq<Point>, n: nat): seq<Target> {
    var owners := Live(up, Take(walk, n));
    KeepShrinks(OnPeer(up), Take(walk, n));
    Owners(owners) + StandIns(Take(Live(up, Drop(walk, n)), n - |owners|))
  }

  function TargetPeers(ts: seq<Target>): set<nat> {
    set t | t in ts :: t.peer
  }

  /** The peers that a plan around the down peers of one view contacts. */
  function LiveSet(ring: seq<Point>, hash: nat, n: nat, up: nat -> bool): set<nat> {
    TargetPeers(LiveTargets(up, WalkOrder(ring, hash), n))
  }

  lemma TakeDrop(walk: seq<Point>, n: nat)
    ensures Take(walk, n) + Drop(walk, n) == walk
  {
  }

  /** The targets are the first `n` live peers of the walk, and a target is a stand-in exactly when its peer
      is not among the first `n` of the walk. */
  lemma LiveTargetsAre(up: nat -> bool, walk: seq<Point>, n: nat)
    requires Unrepeated(walk)
    ensures PeerList(LiveTargets(up, walk, n)) == PeerList(Owners(Take(Live(up, walk), n)))
    ensures forall t :: t in LiveTargets(up, walk, n) ==> (t.isFallback <==> t.peer !in Peers(Take(walk, n)))
    ensures |LiveTargets(up, walk, n)| == |Take(Live(up, walk), n)|
    ensures forall i :: 0 <= i < |Take(Live(up, walk), n)| ==>
      Describes(LiveTargets(up, walk, n)[i], Take(Live(up, walk), n)[i])
  {
    var near, far := Live(up, Take(walk, n)), Live(up, Drop(walk, n));
    TakeDrop(walk, n);
    KeepShrinks(OnPeer(up), Take(walk, n));
    KeepConcat(OnPeer(up), Take(walk, n), Drop(walk, n));
    TakeJoined(near, far, n);
    forall t | t in LiveTargets(up, walk, n) ensures t.isFallback <==> t.peer !in Peers(Take(walk, n)) {
      if t in Owners(near) {
        OwnersNear(up, walk, n, t);
      } else {
        StandInsFar(up, walk, n, n - |near|, t);
      }
    }
  }

  lemma OwnersNear(up: nat -> bool, walk: seq<Point>, n: nat, t: Target)
    requires t in Owners(Live(up, Take(walk, n)))
    ensures !t.isFallback && t.peer in Peers(Take(walk, n))
  {
    var near := Live(up, Take(walk, n));
    var i :| 0 <= i < |near| && Owners(near)[i] == t;
    KeepMembers(OnPeer(up), Take(walk, n), near[i]);
  }

  lemma StandInsFar(up: nat -> bool, walk: seq<Point>, n: nat, m: nat, t: Target)
    requires Unrepeated(walk) && t in StandIns(Take(Live(up, Drop(walk, n)), m))
    ensures t.isFallback && t.peer !in Peers(Take(walk, n))
  {
    var far := Take(Live(up, Drop(walk, n)), m);
    var i :| 0 <= i < |far| && StandIns(far)[i] == t;
    KeepMembers(OnPeer(up), Drop(walk, n), far[i]);
    BeyondTake(walk, n, far[i]);
  }

  lemma TakeJoined(near: seq<Point>, far: seq<Point>, n: nat)
    requires |near| <= n
    ensures PeerList(Owners(near) + StandIns(Take(far, n - |near|))) == PeerList(Owners(Take(near + far, n)))
    ensures forall i :: 0 <= i < |Take(near + far, n)| ==>
      Describes((Owners(near) + StandIns(Take(far, n - |near|)))[i], Take(near + far, n)[i])
  {
    assert Take(near + far, n) == near + Take(far, n - |near|);
  }

  lemma BeyondTake(walk: seq<Point>, n: nat, p: Point)
    requires Unrepeated(walk) && p in Drop(walk, n)
    ensures p.peer !in Peers(Take(walk, n))
  {
    var i :| 0 <= i < |Drop(walk, n)| && Drop(walk, n)[i] == p;
    assert walk[n + i] == p;
    forall q | q in Take(walk, n) ensures q.peer != p.peer {
      var j :| 0 <= j < n && walk[j] == q;
    }
  }

  /** Planning around down peers lists the peers that planning on the ring without them lists. */
  lemma LivePlanIsPlanWithoutDown(up: nat -> bool, ring: seq<Point>, hash: nat, n: nat)
    ensures PeerList(LiveTargets(up, WalkOrder(ring, hash), n)) ==
            PeerList(Owners(Take(WalkOrder(Keep(OnPeer(up), ring), hash), n)))
  {
    DistinctPeers(Clockwise(ring, hash));
    LiveTargetsAre(up, WalkOrder(ring, hash), n);
    WalkWithoutPeers(up, ring, hash);
  }

  /** With every peer up there are no stand-ins: the plan is the plain one. */
  lemma AllUpIsPlain(up: nat -> bool, walk: seq<Point>, n: nat)
    requires forall p :: p in walk ==> up(p.peer)
    ensures LiveTargets(up, walk, n) == Owners(Take(walk, n))
  {
    KeepAll(OnPeer(up), Take(walk, n));
    KeepAll(OnPeer(up), Drop(walk, n));
    assert Take(Live(up, Drop(walk, n)), n - |Take(walk, n)|) == [];
  }

  /** No target is left exactly when no peer of the walk is up. */
  lemma NoTargetIffAllDown(up: nat -> bool, walk: seq<Point>, n: nat)
    requires Unrepeated(walk) && n > 0
    ensures LiveTargets(up, walk, n) == [] <==> forall p :: p in walk ==> !up(p.peer)
  {
    LiveTargetsAre(up, walk, n);
    assert |PeerList(LiveTargets(up, walk, n))| == |Take(Live(up, walk), n)|;
    if forall p :: p in walk ==> !up(p.peer) {
      KeepNone(OnPeer(up), walk);
    } else {
      var p :| p in walk && up(p.peer);
      KeepMembers(OnPeer(up), walk, p);
    }
  }

  // ----- the two passes of the live plan

  /** What the first pass holds after the distinct peers `seen`. */
  ghost predicate Passed(up: nat -> bool, seen: seq<Point>, n: nat, near: seq<Target>, pool: seq<Point>) {
    near == Owners(Live(up, Take(seen, n))) && pool == Drop(seen, n)
  }

  lemma PassNext(up: nat -> bool, seen: seq<Point>, n: nat, near: seq<Target>, pool: seq<Point>, p: Point)
    requires Passed(up, seen, n, near, pool)
    ensures |seen| < n ==> Passed(up, seen + [p], n, if up(p.peer) then near + [Owner(p)] else near, pool)
    ensures |seen| >= n ==> Passed(up, seen + [p], n, near, pool + [p])
  {
    if |seen| < n {
      KeepLast(OnPeer(up), seen, p);
    } else {
      assert Take(seen + [p], n) == Take(seen, n);
      assert Drop(seen + [p], n) == Drop(seen, n) + [p];
    }
  }

  method FirstPass(ring: Ring, start: nat, wanted: nat, up: nat -> bool)
    returns (near: seq<Target>, pool: seq<Point>)
    requires start < |ring|
    ensures Passed(up, Distinct(Rotate(ring, start)), wanted, near, pool)
  {
    ghost var walk := Rotate(ring, start);
    var seen: seq<Point> := [];
    near, pool := [], [];
    for step := 0 to |ring|
      invariant seen == Distinct(walk[..step])
      invariant Passed(up, seen, wanted, near, pool)
    {
      var pt := ring[(start + step) % |ring|];
      RotateAt(ring, start, step);
      DistinctStep(walk, step);
      if pt.peer !in Peers(seen) {
        near, pool := PassOver(up, seen, wanted, near, pool, pt);
        seen := seen + [pt];
      }
    }
    assert walk[..|ring|] == walk;
  }

  lemma DistinctStep(walk: seq<Point>, step: nat)
    requires step < |walk|
    ensures Distinct(walk[..step + 1]) ==
            if walk[step].peer in Peers(Distinct(walk[..step])) then Distinct(walk[..step])
            else Distinct(walk[..step]) + [walk[step]]
  {
    assert walk[..step + 1] == walk[..step] + [walk[step]];
    DistinctNext(walk[..step], walk[step]);
  }

  /** Sort a peer met for the first time into the window or the pool. */
  method PassOver(up: nat -> bool, seen: seq<Point>, wanted: nat, near: seq<Target>, pool: seq<Point>, p: Point)
    returns (near': seq<Target>, pool': seq<Point>)
    requires Passed(up, seen, wanted, near, pool)
    ensures Passed(up, seen + [p], wanted, near', pool')
  {
    PassNext(up, seen, wanted, near, pool, p);
    near', pool' := near, pool;
    if |seen| + 1 <= wanted {
      if up(p.peer) {
        near' := near + [Owner(p)];
      }
    } else {
      pool' := pool + [p];
    }
  }

  /** The position of the first live peer of the pool. */
  method FirstLive(pool: seq<Point>, up: nat -> bool) returns (r: Option<nat>)
    ensures r.None? ==> Live(up, pool) == []
    ensures r.Some? ==>
      r.value < |pool| && Live(up, pool) == [pool[r.value]] + Live(up, pool[..r.value] + pool[r.value + 1..])
  {
    for i := 0 to |pool|
      invariant forall p :: p in pool[..i] ==> !up(p.peer)
    {
      if up(pool[i].peer) {
        TakeFirstLive(pool, i, up);
        return Some(i);
      }
    }
    assert pool[..|pool|] == pool;
    KeepNone(OnPeer(up), pool);
    r := None;
  }

  lemma {:induction false} TakeFirstLive(pool: seq<Point>, i: nat, up: nat -> bool)
    requires i < |pool| && up(pool[i].peer) && forall p :: p in pool[..i] ==> !up(p.peer)
    ensures Live(up, pool) == [pool[i]] + Live(up, pool[..i] + pool[i + 1..])
  {
    assert pool == (pool[..i] + [pool[i]]) + pool[i + 1..];
    FirstKept(OnPeer(up), pool[..i], pool[i], pool[i + 1..]);
  }

  lemma {:induction false} FirstKept(f: Point -> bool, before: seq<Point>, p: Point, after: seq<Point>)
    requires f(p) && forall x :: x in before ==> !f(x)
    ensures Keep(f, (before + [p]) + after) == [p] + Keep(f, before + after)
  {
    KeepConcat(f, before + [p], after);
    KeepConcat(f, before, after);
    KeepLast(f, before, p);
    KeepNone(f, before);
  }

  /** Fill up with the first live peers of the pool, in order. */
  method FillUp(near: seq<Target>, far: seq<Point>, wanted: nat, up: nat -> bool) returns (chosen: seq<Target>)
    requires |near| <= wanted
    ensures chosen == near + StandIns(Take(Live(up, far), wanted - |near|))
  {
    chosen := near;
    var pool := far;
    while |chosen| < wanted
      invariant |chosen| <= wanted
      invariant chosen + StandIns(Take(Live(up, pool), wanted - |chosen|)) ==
                near + StandIns(Take(Live(up, far), wanted - |near|))
    {
      var pos := FirstLive(pool, up);
      if pos.None? {
        break;
      }
      var rest := pool[..pos.value] + pool[pos.value + 1..];
      MoveStandIn(chosen, pool[pos.value], Live(up, rest), wanted - |chosen|);
      chosen := chosen + [StandIn(pool[pos.value])];
      pool := rest;
    }
    assert Take(Live(up, pool), wanted - |chosen|) == [];
  }

  lemma MoveStandIn(chosen: seq<Target>, p: Point, rest: seq<Point>, n: nat)
    requires n > 0
    ensures chosen + StandIns(Take([p] + rest, n)) == (chosen + [StandIn(p)]) + StandIns(Take(rest, n - 1))
  {
    assert Take([p] + rest, n) == [p] + Take(rest, n - 1);
  }

  /** Both passes: the live peers of the window, then stand-ins. */
  method ChooseLive(ring: Ring, start: nat, wanted: nat, up: nat -> bool) returns (chosen: seq<Target>)
    requires start < |ring| && wanted > 0
    ensures chosen == LiveTargets(up, Distinct(Rotate(ring, start)), wanted)
  {
    ghost var walk := Distinct(Rotate(ring, start));
    var near, pool := FirstPass(ring, start, wanted, up);
    KeepShrinks(OnPeer(up), Take(walk, wanted));
    chosen := FillUp(near, pool, wanted, up);
  }

  /** The plan that routes around down peers; `None` stands for the panic when nobody is up. */
  method PlanWithLiveness(ring: Ring, hash: nat, n: nat, up: nat -> bool) returns (r: Option<Plan>, ghost start: nat)
    ensures r.None? <==> ring != [] && forall p :: p in ring ==> !up(p.peer)
    ensures r.Some? ==> r.value.n == n
    ensures r.Some? && ring == [] ==> ReplicaList(r.value) == [PLACEHOLDER]
    ensures ring != [] ==> IsPrimary(ring, hash, start)
    ensures r.Some? && ring != [] ==> ReplicaList(r.value) == LiveTargets(up, Distinct(Rotate(ring, start)), Wanted(n))
    ensures r.Some? && ring != [] && DistinctTokens(ring) ==>
      ReplicaList(r.value) == LiveTargets(up, WalkOrder(ring, hash), Wanted(n))
    ensures r.Some? && ring == [] ==> r.value.primary == Target(0, "", "", false, false) && r.value.successors == []
    ensures r.Some? && ring != [] ==>
      Lists(r.value, Take(Live(up, Distinct(Rotate(ring, start))), if n == 0 then 1 else n))
    ensures r.Some? && ring != [] ==>
      1 + |r.value.successors| == Least(if n == 0 then 1 else n, |set p | p in Peers(ring) && up(p)|)
    ensures r.Some? && ring != [] ==>
      forall t :: t == r.value.primary || t in r.value.successors ==>
        (t.isFallback <==> t.peer !in Peers(Take(Distinct(Rotate(ring, start)), if n == 0 then 1 else n)))
    ensures r.Some? && ring != [] && DistinctTokens(ring) ==>
      PlanPeers(r.value) == LiveSet(ring, hash, if n == 0 then 1 else n, up)
  {
    start := 0;
    var slot := PrimaryIndex(ring, hash);
    match slot
    case None => r := Some(Successors(PLACEHOLDER, n, []));
    case Some(i) =>
      start := i;
      var chosen := ChooseLive(ring, i, Wanted(n), up);
      SomeoneUp(ring, i, Wanted(n), up);
      if DistinctTokens(ring) {
        RotateIsClockwise(ring, hash, start);
      }
      if chosen == [] {
        r := None;
      } else {
        r := Some(Successors(chosen[0], n, chosen[1..]));
        assert ReplicaList(r.value) == chosen;
        DescribesLive(ring, i, Wanted(n), up, r.value, chosen);
      }
  }

  lemma DescribesLive(ring: seq<Point>, start: nat, n: nat, up: nat -> bool, plan: Plan, chosen: seq<Target>)
    requires start < |ring| && chosen == LiveTargets(up, Distinct(Rotate(ring, start)), n)
    requires chosen != [] && plan.primary == chosen[0] && plan.successors == chosen[1..]
    ensures Lists(plan, Take(Live(up, Distinct(Rotate(ring, start))), n))
    ensures |chosen| == Least(n, |set p | p in Peers(ring) && up(p)|)
    ensures forall t :: t == plan.primary || t in plan.successors ==>
      (t.isFallback <==> t.peer !in Peers(Take(Distinct(Rotate(ring, start)), n)))
    ensures PlanPeers(plan) == TargetPeers(chosen)
  {
    LivePeers(plan, chosen);
    DistinctPeers(Rotate(ring, start));
    LiveTargetsAre(up, Distinct(Rotate(ring, start)), n);
    LiveSize(ring, start, up);
  }

  lemma LivePeers(plan: Plan, chosen: seq<Target>)
    requires chosen != [] && plan.primary == chosen[0] && plan.successors == chosen[1..]
    ensures PlanPeers(plan) == TargetPeers(chosen)
    ensures forall t :: t == plan.primary || t in plan.successors <==> t in chosen
  {
    assert chosen == [chosen[0]] + chosen[1..];
  }

  lemma SomeoneUp(ring: seq<Point>, start: nat, n: nat, up: nat -> bool)
    requires start < |ring| && n > 0
    ensures LiveTargets(up, Distinct(Rotate(ring, start)), n) == [] <==> forall p :: p in ring ==> !up(p.peer)
  {
    var turned := Rotate(ring, start);
    DistinctPeers(turned);
    NoTargetIffAllDown(up, Distinct(turned), n);
    assert ring == ring[..start] + ring[start..];
    forall p | p in ring ensures p.peer in Peers(Distinct(turned)) {
      assert p in turned;
      assert p.peer in Peers(turned);
    }
    forall p | p in Distinct(turned) ensures p in ring {
      assert p in turned;
    }
  }
}
