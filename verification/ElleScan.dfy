/** The two passes over a history: the value catalogue, and the checks on committed operations. */
module ElleScan {
  import opened Collections
  import opened ElleGraph
  import opened ElleHistory

  // ----- first pass

  ghost predicate IsWriters(h: History, writer: Writers) {
    forall v :: WriterIs(h, writer, v)
  }

  ghost predicate WriterIs(h: History, writer: Writers, v: Value) {
    WriterOf(h, v) == if v in writer then Some(writer[v]) else None
  }

  ghost predicate IsStatus(h: History, committed: map<Value, bool>) {
    forall v :: StatusIs(h, committed, v)
  }

  ghost predicate StatusIs(h: History, committed: map<Value, bool>, v: Value) {
    && (v in committed && committed[v] <==> Committed(h, v))
    && (v in committed && !committed[v] <==> Aborted(h, v))
  }

  /** The part of a record with its first `n` operations. */
  function Part(r: Record, n: nat): Record
    requires n <= |r.ops|
  {
    r.(ops := r.ops[..n])
  }

  lemma PartNext(r: Record, n: nat, v: Value)
    requires n < |r.ops|
    ensures Appends(Part(r, n + 1), v) <==> Appends(Part(r, n), v) || (r.ops[n].Append? && r.ops[n].value == v)
  {
    assert r.ops[..n + 1] == r.ops[..n] + [r.ops[n]];
    if r.ops[n].Append? && r.ops[n].value == v {
      assert Append(r.ops[n].key, v) in r.ops[..n + 1];
    }
    if Appends(Part(r, n), v) {
      var k :| Append(k, v) in r.ops[..n];
      assert Append(k, v) in r.ops[..n + 1];
    }
  }

  lemma WriterLast(h: History, r: Record, v: Value)
    ensures WriterOf(h + [r], v) == if Attempts(r, v) then Some(r.index) else WriterOf(h, v)
  {
    assert (h + [r])[..|h|] == h;
  }

  lemma StatusLast(h: History, r: Record, v: Value)
    ensures Committed(h + [r], v) <==> Committed(h, v) || (r.kind == Ok && Appends(r, v))
    ensures Aborted(h + [r], v) <==>
      !Committed(h + [r], v) && (Aborted(h, v) || Committed(h, v) || (r.kind == Fail && Appends(r, v)))
  {
    assert forall x :: x in h + [r] <==> x in h || x == r;
  }

  method CatalogueRecord(ghost h: History, r: Record, writer: Writers, committed: map<Value, bool>)
    returns (writer': Writers, committed': map<Value, bool>)
    requires IsWriters(h, writer) && IsStatus(h, committed)
    ensures IsWriters(h + [r], writer') && IsStatus(h + [r], committed')
  {
    writer', committed' := writer, committed;
    EmptyPart(h, r, writer, committed);
    for n := 0 to |r.ops|
      invariant IsWriters(h + [Part(r, n)], writer') && IsStatus(h + [Part(r, n)], committed')
    {
      ghost var w, c := writer', committed';
      if r.ops[n].Append? {
        var v := r.ops[n].value;
        if r.kind == Invoke || r.kind == Ok {
          writer' := writer'[v := r.index];
        }
        if r.kind == Ok {
          committed' := committed'[v := true];
        } else if r.kind == Fail && v !in committed' {
          committed' := committed'[v := false];
        }
      }
      NextWriter(h, r, n, w, writer');
      NextStatus(h, r, n, c, committed');
    }
    assert Part(r, |r.ops|) == r;
  }

  lemma EmptyPart(h: History, r: Record, writer: Writers, committed: map<Value, bool>)
    requires IsWriters(h, writer) && IsStatus(h, committed)
    ensures IsWriters(h + [Part(r, 0)], writer) && IsStatus(h + [Part(r, 0)], committed)
  {
    var r0 := Part(r, 0);
    forall v ensures WriterIs(h + [r0], writer, v) && StatusIs(h + [r0], committed, v) {
      assert WriterIs(h, writer, v) && StatusIs(h, committed, v);
      WriterLast(h, r0, v);
      StatusLast(h, r0, v);
    }
  }

  lemma NextWriter(h: History, r: Record, n: nat, w: Writers, w': Writers)
    requires n < |r.ops| && IsWriters(h + [Part(r, n)], w)
    requires w' == if r.ops[n].Append? && (r.kind == Invoke || r.kind == Ok) then w[r.ops[n].value := r.index] else w
    ensures IsWriters(h + [Part(r, n + 1)], w')
  {
    var h' := h + [Part(r, n + 1)];
    forall v ensures WriterIs(h', w', v) {
      assert WriterIs(h + [Part(r, n)], w, v);
      PartNext(r, n, v);
      WriterLast(h, Part(r, n), v);
      WriterLast(h, Part(r, n + 1), v);
    }
  }

  function Status(c: map<Value, bool>, kind: Kind, v: Value): map<Value, bool> {
    if kind == Ok then c[v := true]
    else if kind == Fail && v !in c then c[v := false]
    else c
  }

  lemma NextStatus(h: History, r: Record, n: nat, c: map<Value, bool>, c': map<Value, bool>)
    requires n < |r.ops| && IsStatus(h + [Part(r, n)], c)
    requires c' == if r.ops[n].Append? then Status(c, r.kind, r.ops[n].value) else c
    ensures IsStatus(h + [Part(r, n + 1)], c')
  {
    var h' := h + [Part(r, n + 1)];
    forall v ensures StatusIs(h', c', v) {
      assert StatusIs(h + [Part(r, n)], c, v);
      PartNext(r, n, v);
      StatusLast(h, Part(r, n), v);
      StatusLast(h, Part(r, n + 1), v);
    }
  }

  /** Catalogue every appended value: who wrote it last, and whether its writers committed or aborted. */
  method Catalogue(h: History) returns (writer: Writers, committed: map<Value, bool>)
    ensures IsWriters(h, writer) && IsStatus(h, committed)
  {
    writer, committed := map[], map[];
    forall v ensures WriterIs([], writer, v) && StatusIs([], committed, v) {
    }
    assert h[..0] == [];
    for n := 0 to |h|
      invariant IsWriters(h[..n], writer) && IsStatus(h[..n], committed)
    {
      writer, committed := CatalogueRecord(h[..n], h[n], writer, committed);
      assert h[..n + 1] == h[..n] + [h[n]];
    }
    assert h[..|h|] == h;
  }

  // ----- second pass: state

  datatype Scan = Scan(
    seen: map<Key, set<Value>>,
    last: map<(Process, Key), seq<Value>>,
    edges: Graph,
    anomalies: seq<Anomaly>)

  function SeenAt(seen: map<Key, set<Value>>, k: Key): set<Value> {
    if k in seen then seen[k] else {}
  }

  function AddEdge(g: Graph, a: Txn, b: Txn): Graph {
    g[a := Succ(g, a) + {b}]
  }

  ghost predicate SeenOk(es: seq<Event>, seen: map<Key, set<Value>>) {
    forall k, v :: v in SeenAt(seen, k) <==> exists e :: e in es && e.op == Append(k, v)
  }

  ghost predicate EdgesOk(writer: Writers, es: seq<Event>, g: Graph) {
    forall a, b :: b in Succ(g, a) <==> Depends(writer, es, a, b)
  }

  /** The list remembered for a process and key is one it read; unless it already went back, every list it
      read is a prefix of that one. */
  ghost predicate LastOk(es: seq<Event>, last: map<(Process, Key), seq<Value>>) {
    forall p, k :: LastAt(es, last, p, k)
  }

  ghost predicate LastAt(es: seq<Event>, last: map<(Process, Key), seq<Value>>, p: Process, k: Key) {
    && ((p, k) in last <==> exists e :: e in es && ReadBy(e, p, k))
    && ((p, k) in last ==> exists e :: e in es && ReadBy(e, p, k) && Seen(e) == last[(p, k)])
    && ((p, k) in last && !WentBack(es, p, k) ==> forall e :: e in es && ReadBy(e, p, k) ==> Seen(e) <= last[(p, k)])
  }

  ghost predicate ReportsOk(aborted: iset<Value>, es: seq<Event>, anomalies: seq<Anomaly>) {
    forall a :: a in anomalies <==> Shows(aborted, es, a)
  }

  ghost predicate Scanned(writer: Writers, aborted: iset<Value>, es: seq<Event>, s: Scan) {
    && SeenOk(es, s.seen)
    && LastOk(es, s.last)
    && EdgesOk(writer, es, s.edges)
    && ReportsOk(aborted, es, s.anomalies)
  }

  /** What one more operation adds to the report. */
  ghost predicate Raised(aborted: iset<Value>, s: Scan, e: Event, a: Anomaly) {
    match a
    case Dup(k, v) => e.op == Append(k, v) && v in SeenAt(s.seen, k)
    case DupRead(t, k) => RepeatRead(e, t, k)
    case AbortedRead(t, k, v) => ReadsAborted(aborted, e, t, k, v)
    case NonMonotonic(p, k) => ReadBy(e, p, k) && (p, k) in s.last && !(s.last[(p, k)] <= Seen(e))
    case Cycle(_) => false
  }

  // ----- second pass: each operation extends what is shown by what is raised

  lemma ShowsNext(writer: Writers, aborted: iset<Value>, es: seq<Event>, s: Scan, e: Event, a: Anomaly)
    requires Scanned(writer, aborted, es, s)
    ensures Shows(aborted, es + [e], a) <==> Shows(aborted, es, a) || Raised(aborted, s, e, a)
  {
    assert forall x :: x in es + [e] <==> x in es || x == e;
    match a
    case Dup(k, v) => TwiceNext(es, s.seen, e, k, v);
    case DupRead(t, k) =>
    case AbortedRead(t, k, v) =>
    case NonMonotonic(p, k) => BackNext(es, s.last, e, p, k);
    case Cycle(_) =>
  }

  lemma TwiceNext(es: seq<Event>, seen: map<Key, set<Value>>, e: Event, k: Key, v: Value)
    requires SeenOk(es, seen)
    ensures AppendedTwice(es + [e], k, v) <==>
      AppendedTwice(es, k, v) || (e.op == Append(k, v) && v in SeenAt(seen, k))
  {
    var es' := es + [e];
    if AppendedTwice(es, k, v) {
      var i, j :| 0 <= i < j < |es| && es[i].op == Append(k, v) && es[j].op == Append(k, v);
      assert es'[i].op == Append(k, v) && es'[j].op == Append(k, v);
    }
    if e.op == Append(k, v) && v in SeenAt(seen, k) {
      var x :| x in es && x.op == Append(k, v);
      var i :| 0 <= i < |es| && es[i] == x;
      assert es'[i].op == Append(k, v) && es'[|es|].op == Append(k, v);
    }
    if AppendedTwice(es', k, v) {
      var i, j :| 0 <= i < j < |es'| && es'[i].op == Append(k, v) && es'[j].op == Append(k, v);
      if j < |es| {
        assert es[i].op == Append(k, v) && es[j].op == Append(k, v);
      } else {
        assert es[i] in es;
      }
    }
  }

  lemma BackNext(es: seq<Event>, last: map<(Process, Key), seq<Value>>, e: Event, p: Process, k: Key)
    requires LastOk(es, last)
    ensures WentBack(es + [e], p, k) <==>
      WentBack(es, p, k) || (ReadBy(e, p, k) && (p, k) in last && !(last[(p, k)] <= Seen(e)))
  {
    var es' := es + [e];
    assert LastAt(es, last, p, k);
    if WentBack(es, p, k) {
      var i, j :| 0 <= i < j < |es| && WentBackAt(es, p, k, i, j);
      assert WentBackAt(es', p, k, i, j);
    } else if ReadBy(e, p, k) && (p, k) in last && !(last[(p, k)] <= Seen(e)) {
      var x :| x in es && ReadBy(x, p, k) && Seen(x) == last[(p, k)];
      var i :| 0 <= i < |es| && es[i] == x;
      assert WentBackAt(es', p, k, i, |es|);
    } else if WentBack(es', p, k) {
      var i, j :| 0 <= i < j < |es'| && WentBackAt(es', p, k, i, j);
      assert es[i] in es && ReadBy(es[i], p, k);
      if j < |es| {
        assert WentBackAt(es, p, k, i, j);
      }
    }
  }

  lemma ReportsNext(writer: Writers, aborted: iset<Value>, es: seq<Event>, s: Scan, e: Event, raised: seq<Anomaly>)
    requires Scanned(writer, aborted, es, s)
    requires forall a :: a in raised <==> Raised(aborted, s, e, a)
    ensures ReportsOk(aborted, es + [e], s.anomalies + raised)
  {
    forall a ensures a in s.anomalies + raised <==> Shows(aborted, es + [e], a) {
      ShowsNext(writer, aborted, es, s, e, a);
    }
  }

  function NextSeen(seen: map<Key, set<Value>>, e: Event): map<Key, set<Value>> {
    if e.op.Append? then seen[e.op.key := SeenAt(seen, e.op.key) + {e.op.value}] else seen
  }

  lemma SeenNext(es: seq<Event>, seen: map<Key, set<Value>>, e: Event)
    requires SeenOk(es, seen)
    ensures SeenOk(es + [e], NextSeen(seen, e))
  {
    var seen' := NextSeen(seen, e);
    forall k, v ensures v in SeenAt(seen', k) <==> exists x :: x in es + [e] && x.op == Append(k, v) {
      assert v in SeenAt(seen', k) <==> v in SeenAt(seen, k) || e.op == Append(k, v);
      if v in SeenAt(seen, k) {
        var x :| x in es && x.op == Append(k, v);
        assert x in es + [e];
      }
      if e.op == Append(k, v) {
        assert e in es + [e];
      }
    }
  }

  function NextLast(last: map<(Process, Key), seq<Value>>, e: Event): map<(Process, Key), seq<Value>> {
    if !e.op.Read? || e.op.observed.None? then last
    else
      var at := (e.process, e.op.key);
      if at !in last || |Seen(e)| >= |last[at]| then last[at := Seen(e)] else last
  }

  lemma LastNext(es: seq<Event>, last: map<(Process, Key), seq<Value>>, e: Event)
    requires LastOk(es, last)
    ensures LastOk(es + [e], NextLast(last, e))
  {
    var es', last' := es + [e], NextLast(last, e);
    forall p, k ensures LastAt(es', last', p, k) {
      assert LastAt(es, last, p, k);
      BackNext(es, last, e, p, k);
      LastAtNext(es, last, e, p, k);
    }
  }

  lemma LastAtNext(es: seq<Event>, last: map<(Process, Key), seq<Value>>, e: Event, p: Process, k: Key)
    requires LastAt(es, last, p, k)
    requires WentBack(es + [e], p, k) <==>
      WentBack(es, p, k) || (ReadBy(e, p, k) && (p, k) in last && !(last[(p, k)] <= Seen(e)))
    ensures LastAt(es + [e], NextLast(last, e), p, k)
  {
    var es', last' := es + [e], NextLast(last, e);
    assert forall x :: x in es' <==> x in es || x == e;
    if ReadBy(e, p, k) {
      assert e in es';
      if (p, k) in last {
        var x :| x in es && ReadBy(x, p, k) && Seen(x) == last[(p, k)];
        assert x in es';
      }
    } else {
      assert (p, k) in last' <==> (p, k) in last;
    }
  }

  // ----- second pass: dependencies

  ghost predicate Adds(g: Graph, g': Graph, writer: Writers, e: Event, wr: seq<Value>, ww: seq<Value>) {
    forall a, b :: b in Succ(g', a) <==> b in Succ(g, a) || WrEdge(writer, wr, e.txn, a, b) || WwEdge(writer, ww, a, b)
  }

  lemma EdgesNext(writer: Writers, es: seq<Event>, g: Graph, g': Graph, e: Event)
    requires EdgesOk(writer, es, g)
    requires if e.op.Read? && e.op.observed.Some? then Adds(g, g', writer, e, Seen(e), Seen(e)) else g' == g
    ensures EdgesOk(writer, es + [e], g')
  {
    forall a, b ensures b in Succ(g', a) <==> Depends(writer, es + [e], a, b) {
      assert b in Succ(g', a) <==> b in Succ(g, a) || Orders(writer, e, a, b);
      if Depends(writer, es, a, b) {
        var x :| x in es && Orders(writer, x, a, b);
        assert x in es + [e];
      }
      if Orders(writer, e, a, b) {
        assert e in es + [e];
      }
    }
  }

  lemma AddWr(g: Graph, g1: Graph, g2: Graph, writer: Writers, e: Event, observed: seq<Value>, n: nat)
    requires n < |observed| && Adds(g, g1, writer, e, observed[..n], [])
    requires var v := observed[n];
      g2 == if v in writer && writer[v] != e.txn then AddEdge(g1, writer[v], e.txn) else g1
    ensures Adds(g, g2, writer, e, observed[..n + 1], [])
  {
    var before, now := observed[..n], observed[..n + 1];
    assert now == before + [observed[n]];
    forall a, b ensures WrEdge(writer, now, e.txn, a, b) <==>
      WrEdge(writer, before, e.txn, a, b) || (b == e.txn && a != b && Wrote(writer, observed[n], a))
    {
      assert now[n] == observed[n];
      assert forall i :: 0 <= i < n ==> now[i] == before[i];
    }
  }

  lemma AddWw(g: Graph, g1: Graph, g2: Graph, writer: Writers, e: Event, observed: seq<Value>, n: nat)
    requires n + 1 < |observed| && Adds(g, g1, writer, e, observed, observed[..n + 1])
    requires var v, w := observed[n], observed[n + 1];
      g2 == if v in writer && w in writer && writer[v] != writer[w] then AddEdge(g1, writer[v], writer[w]) else g1
    ensures Adds(g, g2, writer, e, observed, observed[..n + 2])
  {
    var before, now := observed[..n + 1], observed[..n + 2];
    forall a, b ensures WwEdge(writer, now, a, b) <==>
      WwEdge(writer, before, a, b) || (a != b && Wrote(writer, observed[n], a) && Wrote(writer, observed[n + 1], b))
    {
      assert now[n] == observed[n] && now[n + 1] == observed[n + 1];
      assert forall i :: 0 <= i <= n ==> now[i] == before[i];
    }
  }

  /** The dependencies a read shows. */
  method AddDependencies(writer: Writers, g: Graph, e: Event, observed: seq<Value>) returns (g': Graph)
    ensures Adds(g, g', writer, e, observed, observed)
  {
    g' := g;
    for n := 0 to |observed|
      invariant Adds(g, g', writer, e, observed[..n], [])
    {
      ghost var was := g';
      var v := observed[n];
      if v in writer && writer[v] != e.txn {
        g' := AddEdge(g', writer[v], e.txn);
      }
      AddWr(g, was, g', writer, e, observed, n);
    }
    assert observed[..|observed|] == observed;
    if observed == [] {
      return;
    }
    assert |observed[..1]| == 1;
    for n := 0 to |observed| - 1
      invariant Adds(g, g', writer, e, observed, observed[..n + 1])
    {
      ghost var was := g';
      var v, w := observed[n], observed[n + 1];
      if v in writer && w in writer && writer[v] != writer[w] {
        g' := AddEdge(g', writer[v], writer[w]);
      }
      AddWw(g, was, g', writer, e, observed, n);
    }
  }

  // ----- second pass: reports

  method Repeats(observed: seq<Value>) returns (b: bool)
    ensures b <==> HasRepeat(observed)
  {
    var met: set<Value> := {};
    for n := 0 to |observed|
      invariant met == set v | v in observed[..n]
      invariant !HasRepeat(observed[..n])
    {
      if observed[n] in met {
        var i :| 0 <= i < n && observed[i] == observed[n];
        return true;
      }
      assert observed[..n + 1] == observed[..n] + [observed[n]];
      met := met + {observed[n]};
    }
    assert observed[..|observed|] == observed;
    b := false;
  }

  method AbortedReads(committed: map<Value, bool>, e: Event, ghost aborted: iset<Value>) returns (found: seq<Anomaly>)
    requires e.op.Read? && e.op.observed.Some?
    requires AbortsAre(committed, aborted)
    ensures forall a :: a in found <==> a.AbortedRead? && ReadsAborted(aborted, e, a.txn, a.key, a.value)
  {
    found := [];
    var observed := Seen(e);
    for n := 0 to |observed|
      invariant forall a :: a in found <==>
        a.AbortedRead? && a.txn == e.txn && a.key == e.op.key && a.value in observed[..n] && a.value in aborted
    {
      assert observed[..n + 1] == observed[..n] + [observed[n]];
      var v := observed[n];
      if v in committed && !committed[v] {
        found := found + [AbortedRead(e.txn, e.op.key, v)];
      }
    }
    assert observed[..|observed|] == observed;
  }

  method Raise(committed: map<Value, bool>, s: Scan, e: Event, ghost aborted: iset<Value>)
    returns (raised: seq<Anomaly>)
    requires AbortsAre(committed, aborted)
    ensures forall a :: a in raised <==> Raised(aborted, s, e, a)
  {
    match e.op
    case Append(k, v) =>
      raised := if v in SeenAt(s.seen, k) then [Dup(k, v)] else [];
    case Read(k, None) =>
      raised := [];
    case Read(k, Some(observed)) =>
      var repeats := Repeats(observed);
      raised := if repeats then [DupRead(e.txn, k)] else [];
      var aborts := AbortedReads(committed, e, aborted);
      raised := raised + aborts;
      var at := (e.process, k);
      if at in s.last && (|observed| < |s.last[at]| || observed[..|s.last[at]|] != s.last[at]) {
        raised := raised + [NonMonotonic(e.process, k)];
      }
  }

  method Observe(writer: Writers, committed: map<Value, bool>, s: Scan, e: Event,
                 ghost es: seq<Event>, ghost aborted: iset<Value>) returns (s': Scan)
    requires AbortsAre(committed, aborted)
    requires Scanned(writer, aborted, es, s)
    ensures Scanned(writer, aborted, es + [e], s')
  {
    var raised := Raise(committed, s, e, aborted);
    var edges := s.edges;
    if e.op.Read? && e.op.observed.Some? {
      edges := AddDependencies(writer, s.edges, e, Seen(e));
    }
    ReportsNext(writer, aborted, es, s, e, raised);
    SeenNext(es, s.seen, e);
    LastNext(es, s.last, e);
    EdgesNext(writer, es, s.edges, edges, e);
    s' := Scan(NextSeen(s.seen, e), NextLast(s.last, e), edges, s.anomalies + raised);
  }

  /** What committed and aborted values come to for the second pass. */
  ghost predicate AbortsAre(committed: map<Value, bool>, aborted: iset<Value>) {
    forall v :: v in aborted <==> v in committed && !committed[v]
  }

  method ScanRecord(writer: Writers, committed: map<Value, bool>, s: Scan, r: Record,
                    ghost es: seq<Event>, ghost aborted: iset<Value>) returns (s': Scan)
    requires AbortsAre(committed, aborted) && Scanned(writer, aborted, es, s)
    ensures Scanned(writer, aborted, es + EventsOf(r), s')
  {
    s' := s;
    ghost var more := EventsOf(r);
    assert es + more[..0] == es;
    for n := 0 to |r.ops|
      invariant Scanned(writer, aborted, es + more[..n], s')
    {
      s' := Observe(writer, committed, s', Event(r.index, r.process, r.ops[n]), es + more[..n], aborted);
      assert (es + more[..n]) + [more[n]] == es + more[..n + 1];
    }
    assert more[..|r.ops|] == more;
  }

  method ScanHistory(h: History, writer: Writers, committed: map<Value, bool>, ghost aborted: iset<Value>)
    returns (s: Scan)
    requires AbortsAre(committed, aborted)
    ensures Scanned(writer, aborted, Events(h), s)
  {
    s := Scan(map[], map[], map[], []);
    assert h[..0] == [];
    for n := 0 to |h|
      invariant Scanned(writer, aborted, Events(h[..n]), s)
    {
      assert h[..n + 1][..n] == h[..n];
      if h[n].kind == Ok {
        s := ScanRecord(writer, committed, s, h[n], Events(h[..n]), aborted);
      } else {
        assert Events(h[..n]) + [] == Events(h[..n]);
      }
    }
    assert h[..|h|] == h;
  }

  lemma GraphCycles(writer: Writers, es: seq<Event>, g: Graph, p: seq<Txn>)
    requires EdgesOk(writer, es, g)
    ensures IsCycle(g, p) <==> DependencyCycle(writer, es, p)
  {
  }

  lemma ScheduleSerializes(writer: Writers, h: History, g: Graph, order: seq<Txn>) returns (whole: seq<Txn>)
    requires EdgesOk(writer, Events(h), g) && IsSchedule(g, order)
    ensures Serializes(writer, h, whole)
  {
    whole := WithCommitted(h, order);
    forall a, b | Depends(writer, Events(h), a, b) ensures Before(whole, a, b) {
      assert b in Succ(g, a);
      StepForward(g, order, a, b);
      var i, j :| 0 <= i < j < |order| && order[i] == a && order[j] == b;
      assert whole[i] == a && whole[j] == b;
    }
  }

  /** The order followed by the committed transactions it does not have. */
  lemma {:induction false} WithCommitted(h: History, order: seq<Txn>) returns (whole: seq<Txn>)
    requires NoRepeats(order)
    ensures NoRepeats(whole) && order <= whole && forall r :: r in h && r.kind == Ok ==> r.index in whole
  {
    if h == [] {
      whole := order;
    } else {
      var before, last := h[..|h| - 1], h[|h| - 1];
      var most := WithCommitted(before, order);
      whole := if last.kind == Ok && last.index !in most then most + [last.index] else most;
      assert forall r :: r in h ==> r in before || r == last;
    }
  }

  /** Check a history. Every report is of an anomaly the history shows and every anomaly of the covered
      classes is reported; without a cycle all the committed transactions have an order that every dependency
      agrees with. */
  method Check(h: History) returns (anomalies: seq<Anomaly>, ghost writer: Writers, ghost order: seq<Txn>)
    ensures IsWriters(h, writer)
    ensures forall a :: a in anomalies && !a.Cycle? <==> Shows(AbortedValues(h), Events(h), a)
    ensures forall a :: a in anomalies && a.Cycle? ==> DependencyCycle(writer, Events(h), a.path)
    ensures (exists p :: DependencyCycle(writer, Events(h), p)) <==> exists a :: a in anomalies && a.Cycle?
    ensures (forall a :: a in anomalies ==> !a.Cycle?) ==> Serializes(writer, h, order)
  {
    var writers, committed := Catalogue(h);
    writer := writers;
    forall v ensures v in AbortedValues(h) <==> v in committed && !committed[v] {
      assert StatusIs(h, committed, v);
    }
    var s := ScanHistory(h, writers, committed, AbortedValues(h));
    var found, cycle;
    found, cycle, order := FindCycle(s.edges);
    ghost var es := Events(h);
    forall p ensures IsCycle(s.edges, p) <==> DependencyCycle(writer, es, p) {
      GraphCycles(writer, es, s.edges, p);
    }
    assert forall a :: a in s.anomalies ==> !a.Cycle? by {
      assert forall a :: a in s.anomalies ==> Shows(AbortedValues(h), es, a);
    }
    anomalies := s.anomalies;
    if found {
      anomalies := anomalies + [Cycle(cycle)];
      assert Cycle(cycle) in anomalies;
    } else {
      order := ScheduleSerializes(writer, h, s.edges, order);
    }
  }
}
