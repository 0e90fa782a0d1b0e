/** Token rings, and the order in which a key's clockwise walk meets the peers. */
module RingWalk {
  datatype Point = Point(token: nat, peer: nat, dc: string, rack: string)

  // ----- selecting from a sequence

  function Keep(f: Point -> bool, ps: seq<Point>): seq<Point> {
    if ps == [] then []
    else
      var n := |ps| - 1;
      Keep(f, ps[..n]) + (if f(ps[n]) then [ps[n]] else [])
  }

  function Take<T>(s: seq<T>, n: nat): (r: seq<T>)
    ensures |r| <= n
  {
    if |s| <= n then s else s[..n]
  }

  lemma {:induction false} KeepConcat(f: Point -> bool, a: seq<Point>, b: seq<Point>)
    ensures Keep(f, a + b) == Keep(f, a) + Keep(f, b)
  {
    if b == [] {
      assert a + b == a;
    } else {
      var n := |b| - 1;
      assert (a + b)[..|a + b| - 1] == a + b[..n] && (a + b)[|a + b| - 1] == b[n];
      KeepConcat(f, a, b[..n]);
    }
  }

  lemma {:induction false} KeepMembers(f: Point -> bool, ps: seq<Point>, p: Point)
    ensures p in Keep(f, ps) <==> p in ps && f(p)
  {
    if ps != [] {
      var n := |ps| - 1;
      KeepMembers(f, ps[..n], p);
      assert ps == ps[..n] + [ps[n]];
    }
  }

  lemma KeepLast(f: Point -> bool, ps: seq<Point>, p: Point)
    ensures Keep(f, ps + [p]) == if f(p) then Keep(f, ps) + [p] else Keep(f, ps)
  {
    assert (ps + [p])[..|ps|] == ps;
  }

  lemma {:induction false} KeepSwap(f: Point -> bool, g: Point -> bool, ps: seq<Point>)
    ensures Keep(f, Keep(g, ps)) == Keep(g, Keep(f, ps))
  {
    if ps != [] {
      var init, p := ps[..|ps| - 1], ps[|ps| - 1];
      assert ps == init + [p];
      KeepSwap(f, g, init);
      KeepSwapLast(f, g, init, p);
    }
  }

  lemma KeepSwapLast(f: Point -> bool, g: Point -> bool, ps: seq<Point>, p: Point)
    requires Keep(f, Keep(g, ps)) == Keep(g, Keep(f, ps))
    ensures Keep(f, Keep(g, ps + [p])) == Keep(g, Keep(f, ps + [p]))
  {
    KeepLast(f, ps, p);
    KeepLast(g, ps, p);
    KeepLast(f, Keep(g, ps), p);
    KeepLast(g, Keep(f, ps), p);
  }

  lemma {:induction false} KeepAll(f: Point -> bool, ps: seq<Point>)
    requires forall p :: p in ps ==> f(p)
    ensures Keep(f, ps) == ps
  {
    if ps != [] {
      KeepAll(f, ps[..|ps| - 1]);
    }
  }

  lemma {:induction false} KeepNone(f: Point -> bool, ps: seq<Point>)
    requires forall p :: p in ps ==> !f(p)
    ensures Keep(f, ps) == []
  {
    if ps != [] {
      KeepNone(f, ps[..|ps| - 1]);
    }
  }

  lemma KeepRight(f: Point -> bool, a: seq<Point>, b: seq<Point>)
    requires (forall p :: p in a ==> !f(p)) && (forall p :: p in b ==> f(p))
    ensures Keep(f, a + b) == b
  {
    KeepConcat(f, a, b);
    KeepNone(f, a);
    KeepAll(f, b);
  }

  lemma KeepLeft(f: Point -> bool, a: seq<Point>, b: seq<Point>)
    requires (forall p :: p in a ==> f(p)) && (forall p :: p in b ==> !f(p))
    ensures Keep(f, a + b) == a
  {
    KeepConcat(f, a, b);
    KeepAll(f, a);
    KeepNone(f, b);
  }

  lemma {:induction false} KeepShrinks(f: Point -> bool, ps: seq<Point>)
    ensures |Keep(f, ps)| <= |ps|
  {
    if ps != [] {
      KeepShrinks(f, ps[..|ps| - 1]);
    }
  }

  // ----- building a ring

  predicate Sorted(ps: seq<Point>) {
    forall i, j :: 0 <= i < j < |ps| ==> ps[i].token <= ps[j].token
  }

  type Ring = ps: seq<Point> | Sorted(ps)

  ghost predicate DistinctTokens(ps: seq<Point>) {
    forall i, j :: 0 <= i < j < |ps| ==> ps[i].token != ps[j].token
  }

  /** Put `p` after every point whose token is at most its own. */
  function Place(ps: seq<Point>, p: Point): seq<Point> {
    if ps == [] || ps[|ps| - 1].token <= p.token then ps + [p]
    else Place(ps[..|ps| - 1], p) + [ps[|ps| - 1]]
  }

  /** The stable sort by token that a ring view starts from. */
  function SortByToken(ps: seq<Point>): seq<Point> {
    if ps == [] then [] else Place(SortByToken(ps[..|ps| - 1]), ps[|ps| - 1])
  }

  lemma {:induction false} PlaceSorts(ps: seq<Point>, p: Point)
    requires Sorted(ps)
    ensures Sorted(Place(ps, p))
    ensures multiset(Place(ps, p)) == multiset(ps) + multiset{p}
  {
    if ps != [] && ps[|ps| - 1].token > p.token {
      var n := |ps| - 1;
      PlaceSorts(ps[..n], p);
      assert ps == ps[..n] + [ps[n]];
      SortedLast(Place(ps[..n], p), ps[..n], p, ps[n]);
    }
  }

  lemma SortedLast(placed: seq<Point>, ps: seq<Point>, p: Point, last: Point)
    requires Sorted(placed) && multiset(placed) == multiset(ps) + multiset{p}
    requires p.token <= last.token && forall x :: x in ps ==> x.token <= last.token
    ensures Sorted(placed + [last])
  {
    forall x | x in placed ensures x.token <= last.token {
      assert x in multiset(placed);
    }
  }

  lemma BagOf(ps: seq<Point>)
    requires ps != []
    ensures multiset(ps) == multiset(ps[..|ps| - 1]) + multiset{ps[|ps| - 1]}
  {
    assert ps == ps[..|ps| - 1] + [ps[|ps| - 1]];
  }

  lemma {:induction false} SortSorts(ps: seq<Point>)
    ensures Sorted(SortByToken(ps))
    ensures multiset(SortByToken(ps)) == multiset(ps)
  {
    if ps != [] {
      var init, last := ps[..|ps| - 1], ps[|ps| - 1];
      SortSorts(init);
      PlaceSorts(SortByToken(init), last);
      BagOf(ps);
    }
  }

  lemma {:induction false} KeepPlace(f: Point -> bool, ps: seq<Point>, p: Point)
    requires Sorted(ps)
    ensures Keep(f, Place(ps, p)) == if f(p) then Place(Keep(f, ps), p) else Keep(f, ps)
  {
    if ps == [] || ps[|ps| - 1].token <= p.token {
      KeepLast(f, ps, p);
      PlaceLast(f, ps, p);
    } else {
      var init, last := ps[..|ps| - 1], ps[|ps| - 1];
      assert ps == init + [last];
      KeepPlace(f, init, p);
      KeepLast(f, init, last);
      KeepLast(f, Place(init, p), last);
      PlaceBefore(Keep(f, init), last, p);
    }
  }

  lemma PlaceBefore(ps: seq<Point>, last: Point, p: Point)
    requires p.token < last.token
    ensures Place(ps + [last], p) == Place(ps, p) + [last]
  {
    assert (ps + [last])[..|ps|] == ps;
  }

  lemma PlaceLast(f: Point -> bool, ps: seq<Point>, p: Point)
    requires forall x :: x in ps ==> x.token <= p.token
    ensures Place(Keep(f, ps), p) == Keep(f, ps) + [p]
  {
    var kept := Keep(f, ps);
    if kept != [] {
      KeepMembers(f, ps, kept[|kept| - 1]);
    }
  }

  /** Sorting by token commutes with dropping points, so a ring built without some peers is the ring with
      them removed; taking the points of one token shows that ties keep their order. */
  lemma {:induction false} SortKeeps(f: Point -> bool, ps: seq<Point>)
    ensures Keep(f, SortByToken(ps)) == SortByToken(Keep(f, ps))
  {
    if ps != [] {
      var init, p := ps[..|ps| - 1], ps[|ps| - 1];
      assert ps == init + [p];
      SortKeeps(f, init);
      SortSorts(init);
      KeepPlace(f, SortByToken(init), p);
      KeepLast(f, init, p);
      SortLast(Keep(f, init), p);
    }
  }

  lemma SortLast(ps: seq<Point>, p: Point)
    ensures SortByToken(ps + [p]) == Place(SortByToken(ps), p)
  {
    assert (ps + [p])[..|ps|] == ps;
  }

  lemma {:induction false} KeepSorted(f: Point -> bool, ps: seq<Point>)
    requires Sorted(ps)
    ensures Sorted(Keep(f, ps))
  {
    if ps != [] {
      var n := |ps| - 1;
      KeepSorted(f, ps[..n]);
      forall x | x in Keep(f, ps[..n]) ensures x.token <= ps[n].token {
        KeepMembers(f, ps[..n], x);
      }
    }
  }

  // ----- the walk

  function Rotate(ps: seq<Point>, start: nat): seq<Point>
    requires start <= |ps|
  {
    ps[start..] + ps[..start]
  }

  function Peers(ps: seq<Point>): set<nat> {
    set p | p in ps :: p.peer
  }

  /** The first point of each peer, in order. */
  function Distinct(ps: seq<Point>): seq<Point> {
    if ps == [] then []
    else
      var n := |ps| - 1;
      var seen := Distinct(ps[..n]);
      if ps[n].peer in Peers(seen) then seen else seen + [ps[n]]
  }

  ghost predicate Unrepeated(ps: seq<Point>) {
    forall i, j :: 0 <= i < j < |ps| ==> ps[i].peer != ps[j].peer
  }

  /** One point for every peer of the input and none twice. */
  lemma {:induction false} DistinctPeers(ps: seq<Point>)
    ensures Unrepeated(Distinct(ps)) && Peers(Distinct(ps)) == Peers(ps)
    ensures forall p :: p in Distinct(ps) ==> p in ps
  {
    if ps != [] {
      var n := |ps| - 1;
      DistinctPeers(ps[..n]);
      PeersGrow(ps[..n], ps[n]);
      PeersGrow(Distinct(ps[..n]), ps[n]);
      assert ps == ps[..n] + [ps[n]];
    }
  }

  /** What stands at `i` is the first point of its peer, and every peer met before that point stands before it. */
  lemma {:induction false} DistinctFirst(ps: seq<Point>, i: nat) returns (j: nat)
    requires i < |Distinct(ps)|
    ensures j < |ps| && ps[j] == Distinct(ps)[i] && Peers(Distinct(ps)[..i]) == Peers(ps[..j])
    ensures forall m :: 0 <= m < j ==> ps[m].peer != ps[j].peer
  {
    var n := |ps| - 1;
    var seen := Distinct(ps[..n]);
    if i < |seen| {
      j := DistinctFirst(ps[..n], i);
      assert ps[..n][..j] == ps[..j] && Distinct(ps)[..i] == seen[..i];
    } else {
      j := n;
      DistinctPeers(ps[..n]);
      assert Distinct(ps)[..i] == seen;
      forall m | 0 <= m < n ensures ps[m].peer != ps[n].peer {
        assert ps[..n][m].peer in Peers(ps[..n]);
      }
    }
  }

  lemma PeersGrow(ps: seq<Point>, p: Point)
    ensures Peers(ps + [p]) == Peers(ps) + {p.peer}
    ensures p.peer in Peers(ps) <==> exists q :: q in ps && q.peer == p.peer
  {
  }

  /** A longer walk only adds peers at the end. */
  lemma {:induction false} DistinctPrefix(ps: seq<Point>, n: nat)
    requires n <= |ps|
    ensures Distinct(ps[..n]) <= Distinct(ps)
    decreases |ps|
  {
    if n == |ps| {
      assert ps[..n] == ps;
    } else {
      DistinctPrefix(ps[..|ps| - 1], n);
      assert ps[..|ps| - 1][..n] == ps[..n];
    }
  }

  /** A test that looks only at the peer. */
  function OnPeer(up: nat -> bool): Point -> bool {
    (p: Point) => up(p.peer)
  }

  /** Dropping peers before the walk or after it is the same. */
  lemma {:induction false} DistinctKeeps(up: nat -> bool, ps: seq<Point>)
    ensures Distinct(Keep(OnPeer(up), ps)) == Keep(OnPeer(up), Distinct(ps))
  {
    if ps != [] {
      var init, p := ps[..|ps| - 1], ps[|ps| - 1];
      assert ps == init + [p];
      DistinctKeeps(up, init);
      DistinctKeepsNext(up, init, p);
    }
  }

  lemma DistinctKeepsNext(up: nat -> bool, ps: seq<Point>, p: Point)
    requires Distinct(Keep(OnPeer(up), ps)) == Keep(OnPeer(up), Distinct(ps))
    ensures Distinct(Keep(OnPeer(up), ps + [p])) == Keep(OnPeer(up), Distinct(ps + [p]))
  {
    var f := OnPeer(up);
    KeepLast(f, ps, p);
    KeepLast(f, Distinct(ps), p);
    DistinctNext(ps, p);
    DistinctNext(Keep(f, ps), p);
    KeptPeers(up, Distinct(ps), p.peer);
  }

  lemma DistinctNext(ps: seq<Point>, p: Point)
    ensures Distinct(ps + [p]) == if p.peer in Peers(Distinct(ps)) then Distinct(ps) else Distinct(ps) + [p]
  {
    assert (ps + [p])[..|ps|] == ps;
  }

  lemma KeptPeers(up: nat -> bool, ps: seq<Point>, peer: nat)
    ensures peer in Peers(Keep(OnPeer(up), ps)) <==> peer in Peers(ps) && up(peer)
  {
    var f := OnPeer(up);
    if peer in Peers(Keep(f, ps)) {
      var p :| p in Keep(f, ps) && p.peer == peer;
      KeepMembers(f, ps, p);
    }
    if peer in Peers(ps) && up(peer) {
      var p :| p in ps && p.peer == peer;
      KeepMembers(f, ps, p);
    }
  }

  // ----- where the walk starts

  /** What a binary search for the key's slot may return: any point at the hash, else the first past it,
      wrapping to the first of all. */
  ghost predicate IsPrimary(ring: Ring, hash: nat, i: nat) {
    && i < |ring|
    && (ring[i].token == hash || (Absent(ring, hash) && (FirstPast(ring, hash, i) || (i == 0 && AllBelow(ring, hash)))))
  }

  ghost predicate Absent(ring: Ring, hash: nat) {
    forall p :: p in ring ==> p.token != hash
  }

  ghost predicate FirstPast(ring: Ring, hash: nat, i: nat) {
    i < |ring| && hash < ring[i].token && forall j :: 0 <= j < i ==> ring[j].token < hash
  }

  ghost predicate AllBelow(ring: Ring, hash: nat) {
    forall p :: p in ring ==> p.token < hash
  }

  function AtLeast(hash: nat): Point -> bool {
    (p: Point) => hash <= p.token
  }

  function LessThan(hash: nat): Point -> bool {
    (p: Point) => p.token < hash
  }

  /** The whole ring in clockwise order from a key: the tokens at or past its hash, then the others. */
  function Clockwise(ring: seq<Point>, hash: nat): seq<Point> {
    Keep(AtLeast(hash), ring) + Keep(LessThan(hash), ring)
  }

  /** With distinct tokens the search has one answer, and rotating there is the clockwise order. */
  lemma RotateIsClockwise(ring: Ring, hash: nat, start: nat)
    requires DistinctTokens(ring) && IsPrimary(ring, hash, start)
    ensures Rotate(ring, start) == Clockwise(ring, hash)
  {
    if ring[start].token >= hash {
      SlotSplits(ring, hash, start);
      ClockwiseSplit(ring[..start], ring[start..], hash);
      assert ring == ring[..start] + ring[start..];
    } else {
      ClockwiseSplit(ring, [], hash);
      assert ring + [] == ring && Rotate(ring, 0) == [] + ring;
    }
  }

  lemma ClockwiseSplit(lo: seq<Point>, hi: seq<Point>, hash: nat)
    requires forall p :: p in lo ==> p.token < hash
    requires forall p :: p in hi ==> hash <= p.token
    ensures Clockwise(lo + hi, hash) == hi + lo
  {
    KeepRight(AtLeast(hash), lo, hi);
    KeepLeft(LessThan(hash), lo, hi);
  }

  lemma SlotSplits(ring: Ring, hash: nat, start: nat)
    requires DistinctTokens(ring) && IsPrimary(ring, hash, start) && ring[start].token >= hash
    ensures forall p :: p in ring[..start] ==> p.token < hash
    ensures forall p :: p in ring[start..] ==> hash <= p.token
  {
    forall i | 0 <= i < start ensures ring[i].token < hash {
      assert ring[i].token <= ring[start].token && ring[i].token != ring[start].token;
    }
  }

  /** The peers in the order the walk from a key meets them. */
  function WalkOrder(ring: seq<Point>, hash: nat): seq<Point> {
    Distinct(Clockwise(ring, hash))
  }

  /** Removing peers from a ring removes exactly them from every key's walk. */
  lemma WalkWithoutPeers(up: nat -> bool, ring: seq<Point>, hash: nat)
    ensures WalkOrder(Keep(OnPeer(up), ring), hash) == Keep(OnPeer(up), WalkOrder(ring, hash))
  {
    var f := OnPeer(up);
    KeepSwap(f, AtLeast(hash), ring);
    KeepSwap(f, LessThan(hash), ring);
    KeepConcat(f, Keep(AtLeast(hash), ring), Keep(LessThan(hash), ring));
    DistinctKeeps(up, Clockwise(ring, hash));
  }

  // ----- replica sets

  function ReplicaSet(ring: seq<Point>, hash: nat, n: nat): set<nat> {
    Peers(Take(WalkOrder(ring, hash), n))
  }

  function Without(peer: nat): nat -> bool {
    x => x != peer
  }

  /** Removing the peer at position `i` of a walk moves the later ones up by one. */
  lemma {:induction false} KeepWithout(ps: seq<Point>, i: nat)
    requires Unrepeated(ps) && i < |ps|
    ensures Keep(OnPeer(Without(ps[i].peer)), ps) == ps[..i] + ps[i + 1..]
  {
    assert ps == (ps[..i] + [ps[i]]) + ps[i + 1..];
    KeepOthers(OnPeer(Without(ps[i].peer)), ps[..i], ps[i], ps[i + 1..]);
  }

  lemma {:induction false} KeepOthers(f: Point -> bool, before: seq<Point>, p: Point, after: seq<Point>)
    requires !f(p) && (forall x :: x in before ==> f(x)) && forall x :: x in after ==> f(x)
    ensures Keep(f, (before + [p]) + after) == before + after
  {
    KeepConcat(f, before + [p], after);
    KeepLast(f, before, p);
    KeepAll(f, before);
    KeepAll(f, after);
  }

  /** Removing a peer from the ring takes only that peer out of a replica set, and lets at most one in: the
      next of the walk, and only in its place. */
  lemma ReplicaSetWithout(ring: seq<Point>, hash: nat, n: nat, peer: nat)
    ensures ReplicaSet(Keep(OnPeer(Without(peer)), ring), hash, n) ==
            if peer in ReplicaSet(ring, hash, n)
            then ReplicaSet(ring, hash, n + 1) - {peer}
            else ReplicaSet(ring, hash, n)
    ensures ReplicaSet(ring, hash, n) <= ReplicaSet(ring, hash, n + 1)
    ensures |ReplicaSet(ring, hash, n + 1) - ReplicaSet(ring, hash, n)| <= 1
  {
    var walk := WalkOrder(ring, hash);
    DistinctPeers(Clockwise(ring, hash));
    WalkWithoutPeers(Without(peer), ring, hash);
    TakeNext(walk, n);
    if peer in Peers(walk) {
      var i :| 0 <= i < |walk| && walk[i].peer == peer;
      KeepWithout(walk, i);
      TakeWithout(walk, i, n);
    } else {
      KeepAll(OnPeer(Without(peer)), walk);
      TakePeers(walk, n);
    }
  }

  lemma TakePeers(ps: seq<Point>, n: nat)
    ensures Peers(Take(ps, n)) <= Peers(ps)
  {
  }

  lemma TakeNext(ps: seq<Point>, n: nat)
    ensures Peers(Take(ps, n)) <= Peers(Take(ps, n + 1))
    ensures |Peers(Take(ps, n + 1)) - Peers(Take(ps, n))| <= 1
  {
    if |ps| > n {
      assert Take(ps, n + 1) == ps[..n] + [ps[n]];
      PeersGrow(ps[..n], ps[n]);
      assert Peers(Take(ps, n + 1)) - Peers(Take(ps, n)) <= {ps[n].peer};
      AtMostOne(Peers(Take(ps, n + 1)) - Peers(Take(ps, n)), ps[n].peer);
    } else {
      assert Peers(Take(ps, n + 1)) - Peers(Take(ps, n)) == {};
    }
  }

  lemma AtMostOne(s: set<nat>, x: nat)
    requires s <= {x}
    ensures |s| <= 1
  {
    assert s == {} || s == {x};
  }

  lemma TakeWithout(walk: seq<Point>, i: nat, n: nat)
    requires Unrepeated(walk) && i < |walk|
    ensures Peers(Take(walk[..i] + walk[i + 1..], n)) ==
            if walk[i].peer in Peers(Take(walk, n)) then Peers(Take(walk, n + 1)) - {walk[i].peer}
            else Peers(Take(walk, n))
  {
    if i < n {
      TakeInside(walk, i, n);
    } else {
      TakeOutside(walk, i, n);
    }
  }

  lemma TakeInside(walk: seq<Point>, i: nat, n: nat)
    requires Unrepeated(walk) && i < |walk| && i < n
    ensures walk[i].peer in Peers(Take(walk, n))
    ensures Peers(Take(walk[..i] + walk[i + 1..], n)) == Peers(Take(walk, n + 1)) - {walk[i].peer}
  {
    var t := Take(walk, n + 1);
    assert Take(walk, n)[i] == walk[i];
    assert Take(walk[..i] + walk[i + 1..], n) == t[..i] + t[i + 1..];
    SetWithout(t, i);
  }

  lemma TakeOutside(walk: seq<Point>, i: nat, n: nat)
    requires Unrepeated(walk) && n <= i < |walk|
    ensures walk[i].peer !in Peers(Take(walk, n))
    ensures Peers(Take(walk[..i] + walk[i + 1..], n)) == Peers(Take(walk, n))
  {
    assert Take(walk[..i] + walk[i + 1..], n) == Take(walk, n);
    forall p | p in Take(walk, n) ensures p.peer != walk[i].peer {
      var j :| 0 <= j < n && walk[j] == p;
    }
  }

  lemma SetWithout(ps: seq<Point>, i: nat)
    requires Unrepeated(ps) && i < |ps|
    ensures Peers(ps[..i] + ps[i + 1..]) == Peers(ps) - {ps[i].peer}
  {
    var rest := ps[..i] + ps[i + 1..];
    forall x | x in Peers(ps) - {ps[i].peer} ensures x in Peers(rest) {
      var j :| 0 <= j < |ps| && ps[j].peer == x;
      assert ps[j] == if j < i then rest[j] else rest[j - 1];
    }
    forall x | x in Peers(rest) ensures x in Peers(ps) - {ps[i].peer} {
      var j :| 0 <= j < |rest| && rest[j].peer == x;
      assert rest[j] == if j < i then ps[j] else ps[j + 1];
    }
  }
}
