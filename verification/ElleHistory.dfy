/** List-append histories, and what it is for one to show an anomaly. */
module ElleHistory {
  import opened Collections
  import opened ElleGraph

  type Key = int
  type Value = int
  type Process = int

  datatype Kind = Invoke | Ok | Fail | Info

  datatype Op = Append(key: Key, value: Value) | Read(key: Key, observed: Option<seq<Value>>)

  datatype Record = Record(index: Txn, process: Process, kind: Kind, ops: seq<Op>)

  type History = seq<Record>

  // ----- who wrote what

  ghost predicate Appends(r: Record, v: Value) {
    exists k :: Append(k, v) in r.ops
  }

  ghost predicate Attempts(r: Record, v: Value) {
    (r.kind == Invoke || r.kind == Ok) && Appends(r, v)
  }

  /** The last record that set out to append the value. */
  ghost function WriterOf(h: History, v: Value): Option<Txn> {
    if h == [] then None
    else if Attempts(h[|h| - 1], v) then Some(h[|h| - 1].index)
    else WriterOf(h[..|h| - 1], v)
  }

  ghost predicate Committed(h: History, v: Value) {
    exists r :: r in h && r.kind == Ok && Appends(r, v)
  }

  /** Some transaction that appends the value failed, and none that does committed. */
  ghost predicate Aborted(h: History, v: Value) {
    !Committed(h, v) && exists r :: r in h && r.kind == Fail && Appends(r, v)
  }

  ghost function AbortedValues(h: History): iset<Value> {
    iset v | Aborted(h, v)
  }

  // ----- committed operations

  datatype Event = Event(txn: Txn, process: Process, op: Op)

  function EventsOf(r: Record): (es: seq<Event>)
    ensures |es| == |r.ops| && forall i :: 0 <= i < |es| ==> es[i] == Event(r.index, r.process, r.ops[i])
  {
    seq(|r.ops|, i requires 0 <= i < |r.ops| => Event(r.index, r.process, r.ops[i]))
  }

  /** The operations of committed transactions, in history order. */
  function Events(h: History): seq<Event> {
    if h == [] then []
    else
      var r := h[|h| - 1];
      Events(h[..|h| - 1]) + (if r.kind == Ok then EventsOf(r) else [])
  }

  predicate Sees(e: Event, key: Key) {
    e.op.Read? && e.op.key == key && e.op.observed.Some?
  }

  function Seen(e: Event): seq<Value>
    requires e.op.Read? && e.op.observed.Some?
  {
    e.op.observed.value
  }

  // ----- dependencies

  type Writers = map<Value, Txn>

  ghost predicate Wrote(writer: Writers, v: Value, t: Txn) {
    v in writer && writer[v] == t
  }

  /** `a` wrote a value that `b` read. */
  ghost predicate WrEdge(writer: Writers, observed: seq<Value>, reader: Txn, a: Txn, b: Txn) {
    b == reader && a != b && exists i :: 0 <= i < |observed| && Wrote(writer, observed[i], a)
  }

  /** `a` wrote the value right before one of `b`'s. */
  ghost predicate WwEdge(writer: Writers, observed: seq<Value>, a: Txn, b: Txn) {
    a != b && exists i :: 0 <= i < |observed| - 1 && Wrote(writer, observed[i], a) && Wrote(writer, observed[i + 1], b)
  }

  ghost predicate Orders(writer: Writers, e: Event, a: Txn, b: Txn) {
    && e.op.Read? && e.op.observed.Some?
    && (WrEdge(writer, Seen(e), e.txn, a, b) || WwEdge(writer, Seen(e), a, b))
  }

  ghost predicate Depends(writer: Writers, es: seq<Event>, a: Txn, b: Txn) {
    exists e :: e in es && Orders(writer, e, a, b)
  }

  ghost predicate DependencyCycle(writer: Writers, es: seq<Event>, p: seq<Txn>) {
    |p| >= 2 && p[0] == p[|p| - 1] && forall i :: 0 <= i < |p| - 1 ==> Depends(writer, es, p[i], p[i + 1])
  }

  /** An order of transactions, none twice, that has every committed one and that every dependency agrees with. */
  ghost predicate Serializes(writer: Writers, h: History, order: seq<Txn>) {
    && NoRepeats(order)
    && (forall r :: r in h && r.kind == Ok ==> r.index in order)
    && forall a, b :: Depends(writer, Events(h), a, b) ==> Before(order, a, b)
  }

  // ----- anomalies

  datatype Anomaly =
    | Dup(key: Key, value: Value)
    | DupRead(txn: Txn, key: Key)
    | AbortedRead(txn: Txn, key: Key, value: Value)
    | NonMonotonic(process: Process, key: Key)
    | Cycle(path: seq<Txn>)

  ghost predicate HasRepeat(s: seq<Value>) {
    exists i, j :: 0 <= i < j < |s| && s[i] == s[j]
  }

  ghost predicate AppendedTwice(es: seq<Event>, key: Key, value: Value) {
    exists i, j :: 0 <= i < j < |es| && es[i].op == Append(key, value) && es[j].op == Append(key, value)
  }

  ghost predicate RepeatRead(e: Event, txn: Txn, key: Key) {
    e.txn == txn && Sees(e, key) && HasRepeat(Seen(e))
  }

  ghost predicate ReadsAborted(aborted: iset<Value>, e: Event, txn: Txn, key: Key, value: Value) {
    e.txn == txn && Sees(e, key) && value in Seen(e) && value in aborted
  }

  ghost predicate ReadBy(e: Event, process: Process, key: Key) {
    e.process == process && Sees(e, key)
  }

  /** A process read a key twice and the first list is not a prefix of the second. */
  ghost predicate WentBack(es: seq<Event>, process: Process, key: Key) {
    exists i, j :: 0 <= i < j < |es| && WentBackAt(es, process, key, i, j)
  }

  ghost predicate WentBackAt(es: seq<Event>, process: Process, key: Key, i: nat, j: nat)
    requires i < j < |es|
  {
    ReadBy(es[i], process, key) && ReadBy(es[j], process, key) && !(Seen(es[i]) <= Seen(es[j]))
  }

  /** What each report other than a cycle says about the committed operations. */
  ghost predicate Shows(aborted: iset<Value>, es: seq<Event>, a: Anomaly) {
    match a
    case Dup(k, v) => AppendedTwice(es, k, v)
    case DupRead(t, k) => exists e :: e in es && RepeatRead(e, t, k)
    case AbortedRead(t, k, v) => exists e :: e in es && ReadsAborted(aborted, e, t, k, v)
    case NonMonotonic(p, k) => WentBack(es, p, k)
    case Cycle(_) => false
  }

  // ----- the same, written out

  /** What the reports say, in terms of the records' own fields. */
  lemma ReportsMean(aborted: iset<Value>, es: seq<Event>, k: Key, v: Value, t: Txn, p: Process)
    ensures Shows(aborted, es, Dup(k, v)) <==>
      exists i, j :: 0 <= i < j < |es| && es[i].op == Append(k, v) && es[j].op == Append(k, v)
    ensures Shows(aborted, es, DupRead(t, k)) <==>
      exists e, i, j :: e in es && e.txn == t && e.op.Read? && e.op.key == k && e.op.observed.Some? &&
        0 <= i < j < |e.op.observed.value| && e.op.observed.value[i] == e.op.observed.value[j]
    ensures Shows(aborted, es, AbortedRead(t, k, v)) <==>
      exists e :: e in es && e.txn == t && e.op.Read? && e.op.key == k && e.op.observed.Some? &&
        v in e.op.observed.value && v in aborted
    ensures Shows(aborted, es, NonMonotonic(p, k)) <==>
      exists i, j :: 0 <= i < j < |es| && SeenBy(es[i], p, k).Some? && SeenBy(es[j], p, k).Some? &&
        !(SeenBy(es[i], p, k).value <= SeenBy(es[j], p, k).value)
  {
    assert Shows(aborted, es, NonMonotonic(p, k)) ==>
      exists i, j :: 0 <= i < j < |es| && WentBackAt(es, p, k, i, j);
    forall i, j | 0 <= i < j < |es|
      ensures WentBackAt(es, p, k, i, j) <==>
        SeenBy(es[i], p, k).Some? && SeenBy(es[j], p, k).Some? &&
        !(SeenBy(es[i], p, k).value <= SeenBy(es[j], p, k).value)
    {
    }
    if Shows(aborted, es, DupRead(t, k)) {
      var e :| e in es && RepeatRead(e, t, k);
      var i, j :| 0 <= i < j < |Seen(e)| && Seen(e)[i] == Seen(e)[j];
    }
  }

  /** The list a process saw under a key. */
  function SeenBy(e: Event, p: Process, k: Key): Option<seq<Value>> {
    if e.process == p && e.op.Read? && e.op.key == k then e.op.observed else None
  }

  /** The read saw a value of `a` at `i`, and is itself `b` or saw a value of `b` right after it. */
  ghost predicate SawAt(writer: Writers, e: Event, i: int, a: Txn, b: Txn) {
    && e.op.Read? && e.op.observed.Some? && 0 <= i < |e.op.observed.value|
    && var seen := e.op.observed.value;
    && seen[i] in writer && writer[seen[i]] == a
    && (e.txn == b || (i + 1 < |seen| && seen[i + 1] in writer && writer[seen[i + 1]] == b))
  }

  /** A dependency is between two transactions, and some committed read shows it. */
  lemma DependsMeans(writer: Writers, es: seq<Event>, a: Txn, b: Txn)
    ensures Depends(writer, es, a, b) <==> a != b && exists e, i :: e in es && SawAt(writer, e, i, a, b)
  {
    if Depends(writer, es, a, b) {
      var e :| e in es && Orders(writer, e, a, b);
      if WrEdge(writer, Seen(e), e.txn, a, b) {
        var i :| 0 <= i < |Seen(e)| && Wrote(writer, Seen(e)[i], a);
        assert SawAt(writer, e, i, a, b);
      } else {
        var i :| 0 <= i < |Seen(e)| - 1 && Wrote(writer, Seen(e)[i], a) && Wrote(writer, Seen(e)[i + 1], b);
        assert SawAt(writer, e, i, a, b);
      }
    }
    if a != b && exists e, i :: e in es && SawAt(writer, e, i, a, b) {
      var e, i :| e in es && SawAt(writer, e, i, a, b);
      assert Wrote(writer, Seen(e)[i], a);
      if e.txn != b {
        assert Wrote(writer, Seen(e)[i + 1], b);
      }
      assert Orders(writer, e, a, b);
    }
  }
}
