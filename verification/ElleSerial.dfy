/** What passing the check means for serializability: a serial execution is never reported, but not everything that
    passes is one. */
module ElleSerial {
  import opened Collections
  import opened ElleGraph
  import opened ElleHistory
  import opened ElleScan
  import opened ElleEndpoints

  // ----- serial executions

  /** The list a key holds after these operations. */
  function ListOf(es: seq<Event>, k: Key): seq<Value> {
    if es == [] then []
    else
      var last := es[|es| - 1].op;
      ListOf(es[..|es| - 1], k) + if last.Append? && last.key == k then [last.value] else []
  }

  /** Run one after the other in this order, the operations read what they read. */
  ghost predicate Serial(es: seq<Event>) {
    forall i :: 0 <= i < |es| ==> ReadsTrue(es, i)
  }

  ghost predicate ReadsTrue(es: seq<Event>, i: nat)
    requires i < |es|
  {
    es[i].op.Read? && es[i].op.observed.Some? ==> Seen(es[i]) == ListOf(es[..i], es[i].op.key)
  }

  predicate AppendsAt(es: seq<Event>, i: int, v: Value) {
    0 <= i < |es| && es[i].op.Append? && es[i].op.value == v
  }

  ghost predicate UniqueAppends(es: seq<Event>) {
    forall i, j, v :: AppendsAt(es, i, v) && AppendsAt(es, j, v) ==> i == j
  }

  ghost predicate CommitsAt(h: History, i: int, v: Value) {
    0 <= i < |h| && h[i].kind == Ok && Appends(h[i], v)
  }

  ghost predicate InvokesAt(h: History, i: int, v: Value) {
    0 <= i < |h| && h[i].kind == Invoke && Appends(h[i], v)
  }

  /** A transaction is invoked before it commits. */
  ghost predicate InvokedFirst(h: History) {
    forall i, j, v :: CommitsAt(h, i, v) && InvokesAt(h, j, v) ==> j < i
  }

  ghost predicate SerialHistory(h: History) {
    Indexed(h) && InvokedFirst(h) && Serial(Events(h)) && UniqueAppends(Events(h))
  }

  // ----- lists and the appends behind them

  /** Each value of a key's list was appended, and the list is in the order of the appends. */
  lemma {:induction false} AppendOf(es: seq<Event>, k: Key, m: nat) returns (p: nat)
    requires m < |ListOf(es, k)|
    ensures p < |es| && es[p].op == Append(k, ListOf(es, k)[m])
  {
    var n := |es| - 1;
    if m < |ListOf(es[..n], k)| {
      p := AppendOf(es[..n], k, m);
    } else {
      p := n;
    }
  }

  lemma {:induction false} AppendsInOrder(es: seq<Event>, k: Key, m: nat, m': nat) returns (p: nat, p': nat)
    requires m < m' < |ListOf(es, k)|
    ensures p < p' < |es| && es[p].op == Append(k, ListOf(es, k)[m]) && es[p'].op == Append(k, ListOf(es, k)[m'])
  {
    var n := |es| - 1;
    if m' < |ListOf(es[..n], k)| {
      p, p' := AppendsInOrder(es[..n], k, m, m');
    } else {
      p := AppendOf(es[..n], k, m);
      p' := n;
    }
  }

  lemma {:induction false} ListGrows(es: seq<Event>, i: nat, j: nat, k: Key)
    requires i <= j <= |es|
    ensures ListOf(es[..i], k) <= ListOf(es[..j], k)
    decreases j
  {
    if i < j {
      ListGrows(es, i, j - 1, k);
      assert es[..j][..j - 1] == es[..j - 1];
    }
  }

  // ----- operations and the records behind them

  lemma {:induction false} RecordOf(h: History, e: Event) returns (i: nat)
    requires e in Events(h)
    ensures i < |h| && h[i].kind == Ok && h[i].index == e.txn && e.op in h[i].ops
  {
    var n := |h| - 1;
    if e in Events(h[..n]) {
      i := RecordOf(h[..n], e);
    } else {
      assert e in EventsOf(h[n]);
      i := n;
    }
  }

  lemma {:induction false} EventOfRecord(h: History, i: nat, op: Op) returns (p: nat)
    requires i < |h| && h[i].kind == Ok && op in h[i].ops
    ensures p < |Events(h)| && Events(h)[p].txn == h[i].index && Events(h)[p].op == op
  {
    var n := |h| - 1;
    var before := Events(h[..n]);
    if i < n {
      p := EventOfRecord(h[..n], i, op);
    } else {
      var m :| 0 <= m < |h[n].ops| && h[n].ops[m] == op;
      p := |before| + m;
      assert Events(h) == before + EventsOf(h[n]);
    }
  }

  lemma {:induction false} EventsAscend(h: History, p: nat, q: nat)
    requires Indexed(h) && p <= q < |Events(h)|
    ensures Events(h)[p].txn <= Events(h)[q].txn < |h|
  {
    var n := |h| - 1;
    var before := Events(h[..n]);
    if q < |before| {
      EventsAscend(h[..n], p, q);
    } else if p < |before| {
      EventsAscend(h[..n], p, p);
    }
  }

  /** The writer on record of a committed value is the transaction that committed it. */
  lemma WriterIsCommitter(h: History, writer: Writers, p: nat)
    requires SerialHistory(h) && IsWriters(h, writer) && p < |Events(h)| && Events(h)[p].op.Append?
    ensures Committed(h, Events(h)[p].op.value)
    ensures Wrote(writer, Events(h)[p].op.value, Events(h)[p].txn)
  {
    var e := Events(h)[p];
    var v := e.op.value;
    var i := RecordOf(h, e);
    assert Append(e.op.key, v) in h[i].ops && h[i] in h;
    assert Appends(h[i], v) && Attempts(h[i], v);
    assert WriterIs(h, writer, v);
    WriterIsLast(h, v);
    var t := WriterOf(h, v).value;
    OnlyCommitter(h, v, i, t, p);
  }

  lemma OnlyCommitter(h: History, v: Value, i: nat, t: nat, p: nat)
    requires SerialHistory(h) && i < |h| && h[i].kind == Ok && Appends(h[i], v) && LastAttempt(h, v, t)
    requires AppendsAt(Events(h), p, v) && Events(h)[p].txn == i
    ensures t == i
  {
    assert Attempts(h[i], v) && CommitsAt(h, i, v);
    assert h[t].kind == Invoke ==> InvokesAt(h, t, v);
    if h[t].kind == Ok {
      var k :| Append(k, v) in h[t].ops;
      var q := EventOfRecord(h, t, Append(k, v));
      assert AppendsAt(Events(h), q, v);
    }
  }

  // ----- a serial execution is not reported

  /** Dependencies of a serial execution run forward. */
  lemma DependsForward(h: History, writer: Writers, a: Txn, b: Txn)
    requires SerialHistory(h) && IsWriters(h, writer) && Depends(writer, Events(h), a, b)
    ensures a < b
  {
    var es := Events(h);
    var e :| e in es && Orders(writer, e, a, b);
    var q :| 0 <= q < |es| && es[q] == e;
    var k, past := e.op.key, es[..q];
    assert ReadsTrue(es, q);
    if WrEdge(writer, Seen(e), e.txn, a, b) {
      var m :| 0 <= m < |Seen(e)| && Wrote(writer, Seen(e)[m], a);
      var p := AppendOf(past, k, m);
      assert es[p] == past[p];
      WriterIsCommitter(h, writer, p);
      EventsAscend(h, p, q);
    } else {
      var m :| 0 <= m < |Seen(e)| - 1 && Wrote(writer, Seen(e)[m], a) && Wrote(writer, Seen(e)[m + 1], b);
      var p, p' := AppendsInOrder(past, k, m, m + 1);
      assert es[p] == past[p] && es[p'] == past[p'];
      WriterIsCommitter(h, writer, p);
      WriterIsCommitter(h, writer, p');
      EventsAscend(h, p, p');
    }
  }

  lemma {:induction false} PathsForward(h: History, writer: Writers, path: seq<Txn>, n: nat)
    requires SerialHistory(h) && IsWriters(h, writer) && DependencyCycle(writer, Events(h), path) && 1 <= n < |path|
    ensures path[0] < path[n]
  {
    assert Depends(writer, Events(h), path[n - 1], path[n - 1 + 1]);
    DependsForward(h, writer, path[n - 1], path[n]);
    if n > 1 {
      PathsForward(h, writer, path, n - 1);
    }
  }

  lemma NothingShown(h: History, writer: Writers, a: Anomaly)
    requires SerialHistory(h) && IsWriters(h, writer)
    ensures !Shows(AbortedValues(h), Events(h), a)
  {
    var es := Events(h);
    match a
    case Dup(k, v) =>
      assert forall i :: 0 <= i < |es| && es[i].op == Append(k, v) ==> AppendsAt(es, i, v);
    case DupRead(t, k) =>
      forall e | e in es ensures !RepeatRead(e, t, k) {
        NoRepeatRead(h, e, t, k);
      }
    case AbortedRead(t, k, v) =>
      forall e | e in es ensures !ReadsAborted(AbortedValues(h), e, t, k, v) {
        NoAbortedRead(h, writer, e, t, k, v);
      }
    case NonMonotonic(p, k) =>
      forall i: nat, j: nat | i < j < |es| ensures !WentBackAt(es, p, k, i, j) {
        assert ReadsTrue(es, i) && ReadsTrue(es, j);
        ListGrows(es, i, j, k);
      }
    case Cycle(_) =>
  }

  lemma NoRepeatRead(h: History, e: Event, t: Txn, k: Key)
    requires SerialHistory(h) && e in Events(h)
    ensures !RepeatRead(e, t, k)
  {
    var es := Events(h);
    if RepeatRead(e, t, k) {
      var q :| 0 <= q < |es| && es[q] == e;
      assert ReadsTrue(es, q);
      var m, m' :| 0 <= m < m' < |Seen(e)| && Seen(e)[m] == Seen(e)[m'];
      var p, p' := AppendsInOrder(es[..q], k, m, m');
      assert AppendsAt(es, p, Seen(e)[m]) && AppendsAt(es, p', Seen(e)[m]);
    }
  }

  lemma NoAbortedRead(h: History, writer: Writers, e: Event, t: Txn, k: Key, v: Value)
    requires SerialHistory(h) && IsWriters(h, writer) && e in Events(h)
    ensures !ReadsAborted(AbortedValues(h), e, t, k, v)
  {
    var es := Events(h);
    if Sees(e, k) && v in Seen(e) {
      var q :| 0 <= q < |es| && es[q] == e;
      assert ReadsTrue(es, q);
      var m :| 0 <= m < |Seen(e)| && Seen(e)[m] == v;
      var p := AppendOf(es[..q], k, m);
      assert es[p] == es[..q][p];
      WriterIsCommitter(h, writer, p);
    }
  }

  /** The history of a serial execution in which every value is appended once gets no report. */
  method CheckSerial(h: History) returns (anomalies: seq<Anomaly>)
    requires SerialHistory(h)
    ensures anomalies == []
  {
    ghost var writer, order;
    anomalies, writer, order := Check(h);
    if anomalies != [] {
      HasFirst(anomalies);
    }
    forall path: seq<Txn> ensures !DependencyCycle(writer, Events(h), path) {
      NoCycle(h, writer, path);
    }
    forall a: Anomaly ensures a !in anomalies {
      NothingShown(h, writer, a);
    }
  }

  lemma NoCycle(h: History, writer: Writers, path: seq<Txn>)
    requires SerialHistory(h) && IsWriters(h, writer)
    ensures !DependencyCycle(writer, Events(h), path)
  {
    if DependencyCycle(writer, Events(h), path) {
      PathsForward(h, writer, path, |path| - 1);
    }
  }

  lemma HasFirst(s: seq<Anomaly>)
    requires s != []
    ensures exists a :: a in s
  {
    assert s[0] in s;
  }

  // ----- write skew passes

  /** Each of two committed transactions reads the key that the other appends to, and sees it empty. */
  ghost function WriteSkew(x: Key, y: Key): History {
    [Record(0, 0, Ok, [Read(y, Some([])), Append(x, 1)]), Record(1, 1, Ok, [Read(x, Some([])), Append(y, 2)])]
  }

  ghost function SkewEvents(x: Key, y: Key): seq<Event> {
    [Event(0, 0, Read(y, Some([]))), Event(0, 0, Append(x, 1)),
     Event(1, 1, Read(x, Some([]))), Event(1, 1, Append(y, 2))]
  }

  lemma SkewHas(x: Key, y: Key)
    ensures Events(WriteSkew(x, y)) == SkewEvents(x, y)
    ensures Events([WriteSkew(x, y)[1], WriteSkew(x, y)[0]]) == SkewEvents(x, y)[2..] + SkewEvents(x, y)[..2]
  {
    var h, es := WriteSkew(x, y), SkewEvents(x, y);
    assert EventsOf(h[0]) == es[..2] && EventsOf(h[1]) == es[2..];
    assert h[..1] == [h[0]] && h[..1][..0] == [];
    assert Events(h[..1]) == es[..2];
    var g := [h[1], h[0]];
    assert g[..1] == [h[1]] && g[..1][..0] == [];
    assert Events(g[..1]) == es[2..];
  }

  /** Neither order of the two transactions is a serial execution. */
  lemma SkewIsNotSerial(x: Key, y: Key)
    requires x != y
    ensures !Serial(Events(WriteSkew(x, y))) && !Serial(Events([WriteSkew(x, y)[1], WriteSkew(x, y)[0]]))
  {
    SkewHas(x, y);
    var es := SkewEvents(x, y);
    var es' := es[2..] + es[..2];
    ListLast(es[..2], x, 1);
    assert !ReadsTrue(es, 2);
    assert es'[..2] == es[2..];
    ListLast(es'[..2], y, 2);
    assert !ReadsTrue(es', 2);
  }

  lemma ListLast(es: seq<Event>, k: Key, v: Value)
    requires es != [] && es[|es| - 1].op == Append(k, v)
    ensures ListOf(es, k) != []
  {
  }

  /** Write skew passes the check, though no order of its transactions is a serial execution. */
  lemma WriteSkewPasses(x: Key, y: Key, writer: Writers, a: Anomaly, path: seq<Txn>)
    requires x != y && IsWriters(WriteSkew(x, y), writer)
    ensures !Shows(AbortedValues(WriteSkew(x, y)), Events(WriteSkew(x, y)), a)
    ensures !DependencyCycle(writer, Events(WriteSkew(x, y)), path)
    ensures !Serial(Events(WriteSkew(x, y))) && !Serial(Events([WriteSkew(x, y)[1], WriteSkew(x, y)[0]]))
  {
    SkewHas(x, y);
    SkewIsNotSerial(x, y);
    SkewShowsNothing(AbortedValues(WriteSkew(x, y)), x, y, a);
    if DependencyCycle(writer, SkewEvents(x, y), path) {
      assert Depends(writer, SkewEvents(x, y), path[0], path[0 + 1]);
      SkewDependsNot(writer, x, y, path[0], path[1]);
    }
  }

  lemma SkewReadsEmpty(x: Key, y: Key, e: Event)
    requires e in SkewEvents(x, y) && e.op.Read? && e.op.observed.Some?
    ensures Seen(e) == []
  {
  }

  lemma SkewDependsNot(writer: Writers, x: Key, y: Key, a: Txn, b: Txn)
    ensures !Depends(writer, SkewEvents(x, y), a, b)
  {
    forall e | e in SkewEvents(x, y) ensures !Orders(writer, e, a, b) {
      if e.op.Read? && e.op.observed.Some? {
        SkewReadsEmpty(x, y, e);
      }
    }
  }

  lemma SkewShowsNothing(aborted: iset<Value>, x: Key, y: Key, a: Anomaly)
    ensures !Shows(aborted, SkewEvents(x, y), a)
  {
    var es := SkewEvents(x, y);
    forall e | e in es && e.op.Read? && e.op.observed.Some? ensures Seen(e) == [] {
      SkewReadsEmpty(x, y, e);
    }
    if a.NonMonotonic? {
      forall i: nat, j: nat | i < j < |es| ensures !WentBackAt(es, a.process, a.key, i, j) {
        assert es[i] in es && es[j] in es;
      }
    }
  }
}
