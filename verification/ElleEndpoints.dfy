/** Between which records the dependencies run: the catalogue names the last record that set out to append a
    value, and that record need not be a commit. */
module ElleEndpoints {
  import opened Collections
  import opened ElleGraph
  import opened ElleHistory
  import opened ElleScan

  /** Histories as they are checked: re-indexed by position. */
  ghost predicate Indexed(h: History) {
    forall i :: 0 <= i < |h| ==> h[i].index == i
  }

  ghost predicate CommittedTxn(h: History, t: Txn) {
    exists r :: r in h && r.kind == Ok && r.index == t
  }

  /** Every dependency runs between committed transactions. */
  ghost predicate EndpointsCommitted(h: History, writer: Writers) {
    forall a, b :: Depends(writer, Events(h), a, b) ==> CommittedTxn(h, a) && CommittedTxn(h, b)
  }

  ghost predicate CommitsAfter(h: History, v: Value, i: nat) {
    exists j :: i < j < |h| && h[j].kind == Ok && Appends(h[j], v)
  }

  /** Every invocation that sets out to append the value is followed by a commit that appends it. */
  ghost predicate CommitFollows(h: History, v: Value) {
    forall i: nat :: i < |h| && h[i].kind == Invoke && Appends(h[i], v) ==> CommitsAfter(h, v, i)
  }

  ghost predicate Observed(h: History, v: Value) {
    exists e :: e in Events(h) && e.op.Read? && e.op.observed.Some? && v in Seen(e)
  }

  // ----- where writers and events come from

  /** `t` is the last record that attempts to append the value. */
  ghost predicate LastAttempt(h: History, v: Value, t: nat) {
    t < |h| && Attempts(h[t], v) && forall j :: t < j < |h| ==> !Attempts(h[j], v)
  }

  lemma {:induction false} WriterIsLast(h: History, v: Value)
    requires Indexed(h)
    ensures WriterOf(h, v).Some? ==> LastAttempt(h, v, WriterOf(h, v).value)
    ensures WriterOf(h, v).None? ==> forall j :: 0 <= j < |h| ==> !Attempts(h[j], v)
  {
    if h != [] && !Attempts(h[|h| - 1], v) {
      WriterIsLast(h[..|h| - 1], v);
    }
  }

  lemma LastIsCommit(h: History, v: Value, t: nat)
    requires LastAttempt(h, v, t)
    ensures h[t].kind == Ok <==> CommitFollows(h, v)
  {
    if h[t].kind == Ok {
      forall i: nat | i < |h| && h[i].kind == Invoke && Appends(h[i], v) ensures CommitsAfter(h, v, i) {
        assert Attempts(h[i], v) && i < t;
      }
    } else {
      assert !CommitsAfter(h, v, t);
    }
  }

  lemma {:induction false} EventFromCommit(h: History, e: Event)
    requires e in Events(h)
    ensures CommittedTxn(h, e.txn)
  {
    var n := |h| - 1;
    var r := h[n];
    if e in Events(h[..n]) {
      EventFromCommit(h[..n], e);
    } else {
      assert r in h && r.kind == Ok && e in EventsOf(r);
    }
  }

  lemma WriterCommits(h: History, writer: Writers, v: Value)
    requires Indexed(h) && IsWriters(h, writer) && v in writer
    ensures CommittedTxn(h, writer[v]) <==> CommitFollows(h, v)
  {
    var t := writer[v];
    assert WriterIs(h, writer, v);
    WriterIsLast(h, v);
    LastIsCommit(h, v, t);
    assert h[t] in h;
  }

  lemma UnwrittenFollows(h: History, writer: Writers, v: Value)
    requires IsWriters(h, writer) && v !in writer
    ensures CommitFollows(h, v)
  {
    assert WriterIs(h, writer, v);
    NoAttempt(h, v);
    assert forall i :: 0 <= i < |h| ==> !(h[i].kind == Invoke && Appends(h[i], v));
  }

  lemma {:induction false} NoAttempt(h: History, v: Value)
    requires WriterOf(h, v).None?
    ensures forall j :: 0 <= j < |h| ==> !Attempts(h[j], v)
  {
    if h != [] {
      NoAttempt(h[..|h| - 1], v);
    }
  }

  // ----- the dependencies run between commits exactly when ...

  lemma EdgeEnds(h: History, writer: Writers, e: Event, a: Txn, b: Txn)
    requires Indexed(h) && IsWriters(h, writer) && e in Events(h) && Orders(writer, e, a, b)
    requires forall v :: Observed(h, v) ==> CommitFollows(h, v)
    ensures CommittedTxn(h, a) && CommittedTxn(h, b)
  {
    EventFromCommit(h, e);
    forall v | v in Seen(e) && v in writer ensures CommittedTxn(h, writer[v]) {
      assert Observed(h, v);
      WriterCommits(h, writer, v);
    }
  }

  lemma ObservedFollows(h: History, writer: Writers, v: Value)
    requires Indexed(h) && IsWriters(h, writer) && EndpointsCommitted(h, writer) && Observed(h, v)
    ensures CommitFollows(h, v)
  {
    if v in writer {
      var e :| e in Events(h) && e.op.Read? && e.op.observed.Some? && v in Seen(e);
      var i :| 0 <= i < |Seen(e)| && Seen(e)[i] == v;
      EventFromCommit(h, e);
      if writer[v] != e.txn {
        assert Wrote(writer, Seen(e)[i], writer[v]);
        assert Orders(writer, e, writer[v], e.txn);
      }
      WriterCommits(h, writer, v);
    } else {
      UnwrittenFollows(h, writer, v);
    }
  }

  /** Every dependency runs between committed transactions if and only if, for every value a committed read
      observed, each invocation that set out to append it is followed by a commit that does. */
  lemma EndpointsCommittedIff(h: History, writer: Writers)
    requires Indexed(h) && IsWriters(h, writer)
    ensures EndpointsCommitted(h, writer) <==> forall v :: Observed(h, v) ==> CommitFollows(h, v)
  {
    if EndpointsCommitted(h, writer) {
      forall v | Observed(h, v) ensures CommitFollows(h, v) {
        ObservedFollows(h, writer, v);
      }
    }
    if forall v :: Observed(h, v) ==> CommitFollows(h, v) {
      forall a, b | Depends(writer, Events(h), a, b) ensures CommittedTxn(h, a) && CommittedTxn(h, b) {
        var e :| e in Events(h) && Orders(writer, e, a, b);
        EdgeEnds(h, writer, e, a, b);
      }
    }
  }

  /** An append whose outcome is unknown, and a committed read that saw its value. */
  ghost function UnknownOutcome(): History {
    [Record(0, 1, Invoke, [Append(1, 7)]), Record(1, 1, Info, [Append(1, 7)]),
     Record(2, 2, Ok, [Read(1, Some([7]))])]
  }

  /** There a dependency starts at the invocation, which never committed. */
  lemma DependsOnInvocation(writer: Writers)
    requires IsWriters(UnknownOutcome(), writer)
    ensures Indexed(UnknownOutcome()) && Depends(writer, Events(UnknownOutcome()), 0, 2)
    ensures !CommittedTxn(UnknownOutcome(), 0)
  {
    var h := UnknownOutcome();
    assert Append(1, 7) in h[0].ops;
    assert Attempts(h[0], 7);
    assert WriterIs(h, writer, 7);
    WriterIsLast(h, 7);
    assert writer[7] == 0;
    var e := Event(2, 2, Read(1, Some([7])));
    assert EventsOf(h[2]) == [e];
    assert Wrote(writer, Seen(e)[0], 0);
    assert Orders(writer, e, 0, 2);
  }
}
