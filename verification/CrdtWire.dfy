/** The buffer-filling printer and the cursor-moving parser behind the CRDT operation wire format. */
module CrdtWire {
  import opened Bytes
  import opened CrdtCodec

  // ----- printing into a growing buffer

  method PutLp(out: Bytes, b: Blob) returns (out': Bytes)
    ensures out' == out + Lp(b)
  {
    out' := out + U64BE(|b|);
    out' := out' + b;
  }

  method PutFieldKey(out: Bytes, k: FieldKey) returns (out': Bytes)
    ensures out' == out + FieldKeyBytes(k)
  {
    out' := PutLp(out, k.name);
    out' := out' + [FieldCode(k.fieldType)];
  }

  method PutMapOp(out: Bytes, op: MapOp) returns (out': Bytes)
    ensures out' == out + MapOpBytes(op)
    decreases op
  {
    match op
    case Update(field, nested) =>
      out' := out + [1];
      out' := PutFieldKey(out', field);
      out' := PutNestedOp(out', nested);
      Regroup(out, [1], FieldKeyBytes(field), NestedBytes(nested));
    case Remove(field) =>
      out' := out + [2];
      out' := PutFieldKey(out', field);
  }

  method PutNestedOp(out: Bytes, op: NestedOp) returns (out': Bytes)
    ensures out' == out + NestedBytes(op)
    decreases op
  {
    match op
    case NestedCounter(delta) =>
      out' := out + [1];
      out' := out' + U64BE(ToWord(delta));
    case SetAdd(elt) =>
      out' := out + [2];
      out' := PutLp(out', elt);
    case SetRemove(elt) =>
      out' := out + [3];
      out' := PutLp(out', elt);
    case RegisterAssign(value, micros) =>
      out' := out + [4];
      out' := PutLp(out', value);
      out' := out' + U64BE(micros);
      Regroup(out, [4], Lp(value), U64BE(micros));
    case NestedFlag(enable) =>
      out' := out + [5];
      out' := out' + [BoolByte(enable)];
    case InnerMap(inner) =>
      out' := out + [6];
      out' := PutMapOp(out', inner);
  }

  method PutList(out: Bytes, xs: Blobs) returns (out': Bytes)
    ensures out' == out + BlobsBytes(xs)
  {
    out' := out + U64BE(|xs|);
    ghost var start := out';
    for i := 0 to |xs|
      invariant out' + ManyBytes(Lp, xs[i..]) == start + ManyBytes(Lp, xs)
    {
      Assoc(out', Lp(xs[i]), ManyBytes(Lp, xs[i..][1..]));
      assert xs[i..][1..] == xs[i + 1..];
      out' := PutLp(out', xs[i]);
    }
    assert out' + [] == out';
    Assoc(out, U64BE(|xs|), ManyBytes(Lp, xs));
  }

  method PutOps(out: Bytes, xs: MapOps) returns (out': Bytes)
    ensures out' == out + OpsBytes(xs)
  {
    out' := out + U64BE(|xs|);
    ghost var start := out';
    for i := 0 to |xs|
      invariant out' + ManyBytes(MapOpBytes, xs[i..]) == start + ManyBytes(MapOpBytes, xs)
    {
      Assoc(out', MapOpBytes(xs[i]), ManyBytes(MapOpBytes, xs[i..][1..]));
      assert xs[i..][1..] == xs[i + 1..];
      out' := PutMapOp(out', xs[i]);
    }
    assert out' + [] == out';
    Assoc(out, U64BE(|xs|), ManyBytes(MapOpBytes, xs));
  }

  method PutPayload(out: Bytes, op: CrdtOp) returns (out': Bytes)
    ensures out' == out + Payload(op)
  {
    match op
    case Counter(_, delta) => out' := out + U64BE(ToWord(delta));
    case Set(_, adds, removes) =>
      out' := PutList(out, adds);
      out' := PutList(out', removes);
      Assoc(out, BlobsBytes(adds), BlobsBytes(removes));
    case Register(_, value) => out' := PutLp(out, value);
    case Flag(_, enable) => out' := out + [BoolByte(enable)];
    case Map(_, ops) => out' := PutOps(out, ops);
    case Hll(_, items) => out' := PutList(out, items);
  }

  /** Print an operation: its type, its actor, and its payload. */
  method Print(op: CrdtOp) returns (out: Bytes)
    ensures out == ToBytes(op)
  {
    out := [TypeTag(op)];
    out := PutLp(out, op.actor.dc);
    out := PutLp(out, op.actor.peer);
    out := PutPayload(out, op);
    Regroup([TypeTag(op)], Lp(op.actor.dc), Lp(op.actor.peer), Payload(op));
  }

  // ----- parsing with a cursor

  datatype Outcome<+T> = Got(value: T) | Bad(error: Error) {
    predicate IsFailure() {
      Bad?
    }

    function PropagateFailure<U>(): Outcome<U>
      requires Bad?
    {
      Bad(error)
    }

    function Extract(): T
      requires Got?
    {
      value
    }
  }

  /** A cursor's answer and what is left after it, against what the parser says of the same bytes. */
  ghost predicate Agrees<T>(parsed: Parsed<T>, got: Outcome<T>, rest: Bytes) {
    match parsed
    case Ok(value, left) => got == Got(value) && rest == left
    case Err(error) => got == Bad(error)
  }

  /** The elements read so far put in front of the ones still to come. */
  function Prefixed<T>(done: seq<T>, r: Parsed<seq<T>>): Parsed<seq<T>> {
    if r.Err? then r else Ok(done + r.value, r.rest)
  }

  /** Part way through reading `n` elements from `start`: `done` is read and `rest` is left. */
  ghost predicate Reading<T>(parse: Parser<T>, start: Bytes, n: nat, done: seq<T>, rest: Bytes) {
    && Consumes(parse)
    && |done| <= n
    && Prefixed(done, ReadMany(parse, rest, n - |done|)) == ReadMany(parse, start, n)
  }

  lemma ReadingStart<T>(parse: Parser<T>, start: Bytes, n: nat)
    requires Consumes(parse)
    ensures Reading(parse, start, n, [], start)
  {
    var r := ReadMany(parse, start, n);
    assert r.Ok? ==> [] + r.value == r.value;
  }

  lemma ReadingStep<T>(parse: Parser<T>, start: Bytes, n: nat, done: seq<T>, rest: Bytes)
    requires Reading(parse, start, n, done, rest) && |done| < n
    ensures parse(rest).Err? ==> ReadMany(parse, start, n) == Err(parse(rest).error)
    ensures parse(rest).Ok? ==> Reading(parse, start, n, done + [parse(rest).value], parse(rest).rest)
  {
    if parse(rest).Ok? {
      var r := ReadMany(parse, parse(rest).rest, n - |done| - 1);
      assert r.Ok? ==> (done + [parse(rest).value]) + r.value == done + ([parse(rest).value] + r.value);
    }
  }

  lemma ReadingEnd<T>(parse: Parser<T>, start: Bytes, n: nat, done: seq<T>, rest: Bytes)
    requires Reading(parse, start, n, done, rest) && |done| == n
    ensures ReadMany(parse, start, n) == Ok(done, rest)
  {
    assert done + [] == done;
  }

  class OpReader {
    const buf: Bytes
    const utf8: Utf8
    var pos: nat

    ghost predicate Valid()
      reads this
    {
      pos <= |buf|
    }

    /** The bytes not yet read. */
    ghost function Rest(): Bytes
      reads this
    {
      if pos <= |buf| then buf[pos..] else []
    }

    constructor (utf8: Utf8, buf: Bytes)
      ensures Valid() && this.buf == buf && this.utf8 == utf8 && Rest() == buf
    {
      this.utf8 := utf8;
      this.buf := buf;
      pos := 0;
    }

    method U8() returns (r: Outcome<byte>)
      requires Valid()
      modifies this`pos
      ensures Valid() && Agrees(ReadU8(old(Rest())), r, Rest())
    {
      if pos >= |buf| {
        return Bad(Truncated);
      }
      r := Got(buf[pos]);
      pos := pos + 1;
    }

    method U64() returns (r: Outcome<Word>)
      requires Valid()
      modifies this`pos
      ensures Valid() && Agrees(ReadU64(old(Rest())), r, Rest())
    {
      var end := pos + 8;
      if end > |buf| {
        return Bad(Truncated);
      }
      assert Rest()[..8] == buf[pos..end] && Rest()[8..] == buf[end..];
      ToFromBE(buf[pos..end]);
      Powers();
      r := Got(FromBE(buf[pos..end]));
      pos := end;
    }

    method I64() returns (r: Outcome<I64>)
      requires Valid()
      modifies this`pos
      ensures Valid() && Agrees(ReadI64(old(Rest())), r, Rest())
    {
      var n :- U64();
      r := Got(OfWord(n));
    }

    method Bytes() returns (r: Outcome<Blob>)
      requires Valid()
      modifies this`pos
      ensures Valid() && Agrees(ReadBlob(old(Rest())), r, Rest())
    {
      var n :- U64();
      var end := pos + n as nat;
      if end > |buf| {
        return Bad(Truncated);
      }
      assert Rest()[..n] == buf[pos..end] && Rest()[n..] == buf[end..];
      r := Got(buf[pos..end]);
      pos := end;
    }

    method Text() returns (r: Outcome<Blob>)
      requires Valid()
      modifies this`pos
      ensures Valid() && Agrees(ReadText(utf8, old(Rest())), r, Rest())
    {
      var s :- Bytes();
      r := if utf8(s) then Got(s) else Bad(Truncated);
    }

    method FieldType() returns (r: Outcome<FieldType>)
      requires Valid()
      modifies this`pos
      ensures Valid() && Agrees(ReadFieldType(old(Rest())), r, Rest())
    {
      var code :- U8();
      match code
      case 1 => r := Got(PnCounter);
      case 2 => r := Got(OrSet);
      case 3 => r := Got(LwwRegister);
      case 4 => r := Got(EwFlag);
      case 5 => r := Got(NestedMap);
      case _ => r := Bad(UnknownTag(code));
    }

    method FieldKey() returns (r: Outcome<FieldKey>)
      requires Valid()
      modifies this`pos
      ensures Valid() && Agrees(ReadFieldKey(old(Rest())), r, Rest())
    {
      var name :- Bytes();
      var t :- FieldType();
      r := Got(CrdtCodec.FieldKey(name, t));
    }

    method MapOp() returns (r: Outcome<MapOp>)
      requires Valid()
      modifies this`pos
      ensures Valid() && Agrees(ReadMapOp(old(Rest())), r, Rest())
      decreases |Rest()|
    {
      var tag :- U8();
      if tag == 1 {
        var field :- FieldKey();
        var op :- NestedOp();
        r := Got(Update(field, op));
      } else if tag == 2 {
        var field :- FieldKey();
        r := Got(Remove(field));
      } else {
        r := Bad(UnknownTag(tag));
      }
    }

    method NestedOp() returns (r: Outcome<NestedOp>)
      requires Valid()
      modifies this`pos
      ensures Valid() && Agrees(ReadNestedOp(old(Rest())), r, Rest())
      decreases |Rest()|
    {
      var tag :- U8();
      if tag == 1 {
        var delta :- I64();
        r := Got(NestedCounter(delta));
      } else if tag == 2 {
        var elt :- Bytes();
        r := Got(SetAdd(elt));
      } else if tag == 3 {
        var elt :- Bytes();
        r := Got(SetRemove(elt));
      } else if tag == 4 {
        var value :- Bytes();
        var micros :- U64();
        r := Got(RegisterAssign(value, micros));
      } else if tag == 5 {
        var flag :- U8();
        r := Got(NestedFlag(flag != 0));
      } else if tag == 6 {
        var inner :- MapOp();
        r := Got(InnerMap(inner));
      } else {
        r := Bad(UnknownTag(tag));
      }
    }

    method BlobList(n: nat) returns (r: Outcome<seq<Blob>>)
      requires Valid()
      modifies this`pos
      ensures Valid() && Agrees(ReadMany(ReadBlob, old(Rest()), n), r, Rest())
    {
      ghost var start := Rest();
      var xs: seq<Blob> := [];
      ReadingStart(ReadBlob, start, n);
      for i := 0 to n
        invariant Valid() && |xs| == i
        invariant Reading(ReadBlob, start, n, xs, Rest())
      {
        ReadingStep(ReadBlob, start, n, xs, Rest());
        var x :- Bytes();
        xs := xs + [x];
      }
      ReadingEnd(ReadBlob, start, n, xs, Rest());
      r := Got(xs);
    }

    method Blobs() returns (r: Outcome<Blobs>)
      requires Valid()
      modifies this`pos
      ensures Valid() && Agrees(ReadCounted(old(Rest())), r, Rest())
    {
      var n :- U64();
      var xs :- BlobList(n);
      r := Got(xs);
    }

    method MapOpList(n: nat) returns (r: Outcome<seq<MapOp>>)
      requires Valid()
      modifies this`pos
      ensures Valid() && Agrees(ReadMany(ReadMapOp, old(Rest()), n), r, Rest())
    {
      ghost var start := Rest();
      var xs: seq<MapOp> := [];
      ReadingStart(ReadMapOp, start, n);
      for i := 0 to n
        invariant Valid() && |xs| == i
        invariant Reading(ReadMapOp, start, n, xs, Rest())
      {
        ReadingStep(ReadMapOp, start, n, xs, Rest());
        var x :- MapOp();
        xs := xs + [x];
      }
      ReadingEnd(ReadMapOp, start, n, xs, Rest());
      r := Got(xs);
    }

    method MapOps() returns (r: Outcome<MapOps>)
      requires Valid()
      modifies this`pos
      ensures Valid() && Agrees(ReadCountedOps(old(Rest())), r, Rest())
    {
      var n :- U64();
      var xs :- MapOpList(n);
      r := Got(xs);
    }

    method Payload(tag: byte, actor: ActorId) returns (r: Outcome<CrdtOp>)
      requires Valid()
      modifies this`pos
      ensures Valid() && Agrees(ReadPayload(tag, actor, old(Rest())), r, Rest())
    {
      if tag == 1 {
        var delta :- I64();
        r := Got(Counter(actor, delta));
      } else if tag == 2 {
        var adds :- Blobs();
        var removes :- Blobs();
        r := Got(Set(actor, adds, removes));
      } else if tag == 3 {
        var value :- Bytes();
        r := Got(Register(actor, value));
      } else if tag == 4 {
        var flag :- U8();
        r := Got(Flag(actor, flag != 0));
      } else if tag == 5 {
        var ops :- MapOps();
        r := Got(Map(actor, ops));
      } else if tag == 6 {
        var items :- Blobs();
        r := Got(Hll(actor, items));
      } else {
        r := Bad(UnknownTag(tag));
      }
    }

    method Op() returns (r: Outcome<CrdtOp>)
      requires Valid()
      modifies this`pos
      ensures Valid() && Agrees(ReadOp(utf8, old(Rest())), r, Rest())
    {
      var tag :- U8();
      var dc :- Text();
      var peer :- Text();
      r := Payload(tag, ActorId(dc, peer));
    }
  }

  /** Parse a buffer. It returns on every input, however malformed, with the value or the error the format
      gives; it inverts `Print` on every operation, whatever bytes follow, and rejects every proper prefix of a
      printed operation. */
  method Parse(utf8: Utf8, buf: Bytes) returns (r: Outcome<CrdtOp>)
    ensures forall op :: PrintedAs(utf8, op, buf) ==> r == Got(op)
    ensures forall op :: PrintedPart(utf8, op, buf) ==> r == Bad(Truncated)
    ensures match ReadOp(utf8, buf) { case Ok(value, _) => r == Got(value) case Err(error) => r == Bad(error) }
  {
    var reader := new OpReader(utf8, buf);
    r := reader.Op();
    forall op | PrintedAs(utf8, op, buf) ensures r == Got(op) {
      ParsePrinted(utf8, op, buf);
    }
    forall op | PrintedPart(utf8, op, buf) ensures r == Bad(Truncated) {
      ParsePart(utf8, op, buf);
    }
  }

  /** The buffer holds a printed operation, perhaps with more after it. */
  ghost predicate PrintedAs(utf8: Utf8, op: CrdtOp, buf: Bytes) {
    TextOk(utf8, op) && ToBytes(op) <= buf
  }

  /** The buffer holds a proper prefix of a printed operation. */
  ghost predicate PrintedPart(utf8: Utf8, op: CrdtOp, buf: Bytes) {
    TextOk(utf8, op) && buf < ToBytes(op)
  }

  lemma ParsePrinted(utf8: Utf8, op: CrdtOp, buf: Bytes)
    requires PrintedAs(utf8, op, buf)
    ensures ReadOp(utf8, buf).Ok? && ReadOp(utf8, buf).value == op
  {
    OpRoundTrip(utf8, op, buf[|ToBytes(op)|..]);
    SplitPrefix(ToBytes(op), buf);
  }

  lemma SplitPrefix(a: Bytes, b: Bytes)
    requires a <= b
    ensures a + b[|a|..] == b
  {
  }

  lemma ParsePart(utf8: Utf8, op: CrdtOp, buf: Bytes)
    requires PrintedPart(utf8, op, buf)
    ensures ReadOp(utf8, buf) == Err(Truncated)
  {
    assert ToBytes(op)[..|buf|] == buf;
    ProperPrefixTruncated(utf8, op, |buf|);
  }
}
