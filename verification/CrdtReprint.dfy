/** Printing what was parsed: which inputs come back byte for byte. */
module CrdtReprint {
  import opened Bytes
  import opened CrdtCodec

  /** Every boolean is written as 0 or 1. */
  predicate Canonical(bools: Bytes) {
    forall i :: 0 <= i < |bools| ==> bools[i] <= 1
  }

  /** `printed` is as long as what was consumed of `b`, and equal to it exactly when the booleans read are
      canonical. */
  ghost predicate Reprints(printed: Bytes, b: Bytes, rest: Bytes, bools: Bytes) {
    var n := |printed|;
    n + |rest| == |b| && b[n..] == rest && (printed == b[..n] <==> Canonical(bools))
  }

  // ----- the boolean bytes a parser reads

  function MapOpBools(b: Bytes): Bytes
    decreases |b|
  {
    if b == [] || b[0] != 1 || ReadFieldKey(b[1..]).Err? then [] else NestedBools(ReadFieldKey(b[1..]).rest)
  }

  function NestedBools(b: Bytes): Bytes
    decreases |b|
  {
    if |b| < 2 then []
    else if b[0] == 5 then [b[1]]
    else if b[0] == 6 then MapOpBools(b[1..])
    else []
  }

  function ManyBools<T>(parse: Parser<T>, bools: Bytes -> Bytes, b: Bytes, n: nat): Bytes
    decreases n
  {
    if n == 0 || parse(b).Err? then [] else bools(b) + ManyBools(parse, bools, parse(b).rest, n - 1)
  }

  function PayloadBools(tag: byte, b: Bytes): Bytes {
    if tag == 4 && b != [] then [b[0]]
    else if tag == 5 && ReadU64(b).Ok? then ManyBools(ReadMapOp, MapOpBools, ReadU64(b).rest, ReadU64(b).value)
    else []
  }

  /** The boolean bytes of the operation at the front of `b`, in the order they are read. */
  function BoolsRead(utf8: Utf8, b: Bytes): Bytes {
    if b == [] || ReadActor(utf8, b[1..]).Err? then [] else PayloadBools(b[0], ReadActor(utf8, b[1..]).rest)
  }

  // ----- one parser after another

  lemma Then(first: Bytes, b: Bytes, mid: Bytes, firstBools: Bytes, second: Bytes, rest: Bytes, secondBools: Bytes)
    requires Reprints(first, b, mid, firstBools) && Reprints(second, mid, rest, secondBools)
    ensures Reprints(first + second, b, rest, firstBools + secondBools)
  {
    var m, n := |first|, |second|;
    assert b[..m + n] == b[..m] + mid[..n];
    assert b[m + n..] == mid[n..];
    assert (first + second)[..m] == first && (first + second)[m..] == second;
    assert b[..m + n][..m] == b[..m] && b[..m + n][m..] == mid[..n];
    BothCanonical(firstBools, secondBools);
  }

  lemma BothCanonical(a: Bytes, b: Bytes)
    ensures Canonical(a + b) <==> Canonical(a) && Canonical(b)
  {
    assert forall i :: 0 <= i < |a| ==> (a + b)[i] == a[i];
    assert forall i :: 0 <= i < |b| ==> (a + b)[|a| + i] == b[i];
  }

  /** A parser that reads no boolean, followed by another. */
  lemma PlainThen(first: Bytes, b: Bytes, mid: Bytes, second: Bytes, rest: Bytes, bools: Bytes)
    requires Reprints(first, b, mid, []) && Reprints(second, mid, rest, bools)
    ensures Reprints(first + second, b, rest, bools)
  {
    Then(first, b, mid, [], second, rest, bools);
    assert [] + bools == bools;
  }

  lemma U8Again(b: Bytes)
    requires ReadU8(b).Ok?
    ensures Reprints([b[0]], b, b[1..], [])
  {
  }

  lemma FlagAgain(b: Bytes)
    requires ReadU8(b).Ok?
    ensures Reprints([BoolByte(b[0] != 0)], b, b[1..], [b[0]])
  {
    assert b[..1] == [b[0]];
  }

  lemma U64Again(b: Bytes)
    requires ReadU64(b).Ok?
    ensures Reprints(U64BE(ReadU64(b).value), b, ReadU64(b).rest, [])
  {
    ToFromBE(b[..8]);
  }

  lemma I64Again(b: Bytes)
    requires ReadI64(b).Ok?
    ensures Reprints(U64BE(ToWord(ReadI64(b).value)), b, ReadI64(b).rest, [])
  {
    U64Again(b);
    assert ToWord(OfWord(ReadU64(b).value)) == ReadU64(b).value;
  }

  lemma BlobAgain(b: Bytes)
    requires ReadBlob(b).Ok?
    ensures Reprints(Lp(ReadBlob(b).value), b, ReadBlob(b).rest, [])
  {
    U64Again(b);
    var x, mid := ReadBlob(b).value, ReadU64(b).rest;
    assert Reprints(x, mid, ReadBlob(b).rest, []);
    PlainThen(U64BE(|x|), b, mid, x, ReadBlob(b).rest, []);
  }

  lemma FieldKeyAgain(b: Bytes)
    requires ReadFieldKey(b).Ok?
    ensures Reprints(FieldKeyBytes(ReadFieldKey(b).value), b, ReadFieldKey(b).rest, [])
  {
    var k, mid := ReadFieldKey(b).value, ReadBlob(b).rest;
    BlobAgain(b);
    U8Again(mid);
    PlainThen(Lp(k.name), b, mid, [FieldCode(k.fieldType)], mid[1..], []);
  }

  // ----- map operations

  lemma {:induction false} MapOpAgain(b: Bytes)
    requires ReadMapOp(b).Ok?
    ensures Reprints(MapOpBytes(ReadMapOp(b).value), b, ReadMapOp(b).rest, MapOpBools(b))
    decreases |b|
  {
    U8Again(b);
    var b1, r := b[1..], ReadMapOp(b);
    FieldKeyAgain(b1);
    if b[0] == 1 {
      var key := ReadFieldKey(b1);
      NestedAgain(key.rest);
      PlainThen(FieldKeyBytes(key.value), b1, key.rest, NestedBytes(r.value.op), r.rest, NestedBools(key.rest));
      PlainThen([1], b, b1, FieldKeyBytes(key.value) + NestedBytes(r.value.op), r.rest, MapOpBools(b));
    } else {
      PlainThen([2], b, b1, FieldKeyBytes(r.value.field), r.rest, []);
    }
  }

  lemma {:induction false} NestedAgain(b: Bytes)
    requires ReadNestedOp(b).Ok?
    ensures Reprints(NestedBytes(ReadNestedOp(b).value), b, ReadNestedOp(b).rest, NestedBools(b))
    decreases |b|
  {
    if b[0] == 6 {
      var inner := ReadMapOp(b[1..]);
      U8Again(b);
      MapOpAgain(b[1..]);
      PlainThen([6], b, b[1..], MapOpBytes(inner.value), inner.rest, MapOpBools(b[1..]));
    } else {
      LeafAgain(b);
    }
  }

  lemma LeafAgain(b: Bytes)
    requires ReadNestedOp(b).Ok? && b[0] != 6
    ensures Reprints(NestedBytes(ReadNestedOp(b).value), b, ReadNestedOp(b).rest, NestedBools(b))
  {
    var b1, r := b[1..], ReadLeaf(b[0], b[1..]);
    U8Again(b);
    if b[0] == 1 {
      I64Again(b1);
      PlainThen([1], b, b1, U64BE(ToWord(r.value.delta)), r.rest, []);
    } else if b[0] == 2 || b[0] == 3 {
      BlobAgain(b1);
      PlainThen([b[0]], b, b1, Lp(r.value.elt), r.rest, []);
    } else if b[0] == 4 {
      AssignAgain(b1);
      PlainThen([4], b, b1, Lp(r.value.value) + U64BE(r.value.micros), r.rest, []);
    } else {
      FlagAgain(b1);
      PlainThen([5], b, b1, [BoolByte(b1[0] != 0)], r.rest, [b1[0]]);
    }
  }

  lemma AssignAgain(b: Bytes)
    requires ReadAssign(b).Ok?
    ensures Reprints(Lp(ReadAssign(b).value.value) + U64BE(ReadAssign(b).value.micros), b, ReadAssign(b).rest, [])
  {
    var op, mid := ReadAssign(b).value, ReadBlob(b).rest;
    BlobAgain(b);
    U64Again(mid);
    PlainThen(Lp(op.value), b, mid, U64BE(op.micros), ReadAssign(b).rest, []);
  }

  // ----- lists

  lemma ManyStep<T>(parse: Parser<T>, b: Bytes, n: nat)
    requires Consumes(parse) && n > 0 && ReadMany(parse, b, n).Ok?
    ensures parse(b).Ok? && ReadMany(parse, parse(b).rest, n - 1).Ok?
    ensures ReadMany(parse, b, n).value[0] == parse(b).value
    ensures ReadMany(parse, b, n).value[1..] == ReadMany(parse, parse(b).rest, n - 1).value
    ensures ReadMany(parse, b, n).rest == ReadMany(parse, parse(b).rest, n - 1).rest
  {
  }

  lemma {:induction false} BlobsAgain(b: Bytes, n: nat)
    requires ReadMany(ReadBlob, b, n).Ok?
    ensures Reprints(ManyBytes(Lp, ReadMany(ReadBlob, b, n).value), b, ReadMany(ReadBlob, b, n).rest, [])
    decreases n
  {
    if n > 0 {
      ManyStep(ReadBlob, b, n);
      var first, r := ReadBlob(b), ReadMany(ReadBlob, b, n);
      BlobAgain(b);
      BlobsAgain(first.rest, n - 1);
      PlainThen(Lp(first.value), b, first.rest, ManyBytes(Lp, r.value[1..]), r.rest, []);
    }
  }

  ghost predicate ReprintsAt<T>(enc: T -> Bytes, parse: Parser<T>, bools: Bytes -> Bytes, b: Bytes) {
    parse(b).Ok? ==> Reprints(enc(parse(b).value), b, parse(b).rest, bools(b))
  }

  lemma {:induction false} ManyAgain<T>(enc: T -> Bytes, parse: Parser<T>, bools: Bytes -> Bytes, b: Bytes, n: nat)
    requires Consumes(parse) && ReadMany(parse, b, n).Ok?
    requires forall x :: ReprintsAt(enc, parse, bools, x)
    ensures Reprints(ManyBytes(enc, ReadMany(parse, b, n).value), b, ReadMany(parse, b, n).rest,
                     ManyBools(parse, bools, b, n))
    decreases n
  {
    if n > 0 {
      ManyStep(parse, b, n);
      var first, r := parse(b), ReadMany(parse, b, n);
      assert ReprintsAt(enc, parse, bools, b);
      ManyAgain(enc, parse, bools, first.rest, n - 1);
      Then(enc(first.value), b, first.rest, bools(b),
           ManyBytes(enc, r.value[1..]), r.rest, ManyBools(parse, bools, first.rest, n - 1));
    }
  }

  lemma CountedAgain(b: Bytes)
    requires ReadCounted(b).Ok?
    ensures Reprints(BlobsBytes(ReadCounted(b).value), b, ReadCounted(b).rest, [])
  {
    var count, r := ReadU64(b), ReadCounted(b);
    U64Again(b);
    BlobsAgain(count.rest, count.value);
    PlainThen(U64BE(count.value), b, count.rest, ManyBytes(Lp, r.value), r.rest, []);
  }

  lemma CountedOpsAgain(b: Bytes)
    requires ReadCountedOps(b).Ok?
    ensures Reprints(OpsBytes(ReadCountedOps(b).value), b, ReadCountedOps(b).rest,
                     ManyBools(ReadMapOp, MapOpBools, ReadU64(b).rest, ReadU64(b).value))
  {
    var count, r := ReadU64(b), ReadCountedOps(b);
    U64Again(b);
    forall x: Bytes ensures ReprintsAt(MapOpBytes, ReadMapOp, MapOpBools, x) {
      if ReadMapOp(x).Ok? {
        MapOpAgain(x);
      }
    }
    ManyAgain(MapOpBytes, ReadMapOp, MapOpBools, count.rest, count.value);
    PlainThen(U64BE(count.value), b, count.rest, ManyBytes(MapOpBytes, r.value), r.rest,
              ManyBools(ReadMapOp, MapOpBools, count.rest, count.value));
  }

  // ----- whole operations

  lemma PayloadAgain(tag: byte, actor: ActorId, b: Bytes)
    requires ReadPayload(tag, actor, b).Ok?
    ensures Reprints(Payload(ReadPayload(tag, actor, b).value), b, ReadPayload(tag, actor, b).rest,
                     PayloadBools(tag, b))
    ensures TypeTag(ReadPayload(tag, actor, b).value) == tag && ReadPayload(tag, actor, b).value.actor == actor
  {
    if tag == 1 {
      I64Again(b);
    } else if tag == 2 {
      SetAgain(actor, b);
    } else if tag == 3 {
      BlobAgain(b);
    } else if tag == 4 {
      FlagAgain(b);
    } else if tag == 5 {
      CountedOpsAgain(b);
    } else {
      CountedAgain(b);
    }
  }

  lemma SetAgain(actor: ActorId, b: Bytes)
    requires ReadSet(actor, b).Ok?
    ensures Reprints(Payload(ReadSet(actor, b).value), b, ReadSet(actor, b).rest, [])
  {
    var adds, r := ReadCounted(b), ReadSet(actor, b);
    CountedAgain(b);
    CountedAgain(adds.rest);
    PlainThen(BlobsBytes(adds.value), b, adds.rest, BlobsBytes(r.value.removes), r.rest, []);
  }

  lemma ActorAgain(utf8: Utf8, b: Bytes)
    requires ReadActor(utf8, b).Ok?
    ensures var r := ReadActor(utf8, b); Reprints(Lp(r.value.dc) + Lp(r.value.peer), b, r.rest, [])
  {
    var dc, r := ReadBlob(b), ReadActor(utf8, b);
    BlobAgain(b);
    BlobAgain(dc.rest);
    PlainThen(Lp(dc.value), b, dc.rest, Lp(r.value.peer), r.rest, []);
  }

  /** Printing what was parsed gives as many bytes as were consumed, and gives the consumed bytes themselves
      exactly when every boolean byte read is 0 or 1. */
  lemma ReprintIff(utf8: Utf8, b: Bytes)
    requires ReadOp(utf8, b).Ok?
    ensures var r := ReadOp(utf8, b); var n := |b| - |r.rest|;
      && |ToBytes(r.value)| == n && b[n..] == r.rest
      && (ToBytes(r.value) == b[..n] <==> Canonical(BoolsRead(utf8, b)))
  {
    var b1 := b[1..];
    var actor := ReadActor(utf8, b1);
    var r := ReadPayload(b[0], actor.value, actor.rest);
    var dc, peer, body := Lp(actor.value.dc), Lp(actor.value.peer), Payload(r.value);
    U8Again(b);
    ActorAgain(utf8, b1);
    PayloadAgain(b[0], actor.value, actor.rest);
    PlainThen(dc + peer, b1, actor.rest, body, r.rest, BoolsRead(utf8, b));
    PlainThen([b[0]], b, b1, (dc + peer) + body, r.rest, BoolsRead(utf8, b));
    Assoc(dc, peer, body);
  }

  /** A flag written as 2 parses as set and prints as 1. */
  lemma FlagNormalized(utf8: Utf8)
    requires utf8([])
    ensures var b := [4] + (Lp([]) + (Lp([]) + [2]));
      ReadOp(utf8, b) == Ok(Flag(ActorId([], []), true), []) && ToBytes(ReadOp(utf8, b).value) != b
  {
    var b := [4] + (Lp([]) + (Lp([]) + [2]));
    TaggedBack(4, Lp([]) + (Lp([]) + [2]), []);
    assert b + [] == b && (Lp([]) + (Lp([]) + [2])) + [] == Lp([]) + (Lp([]) + [2]);
    ActorBack(utf8, ActorId([], []), [2]);
    ReprintIff(utf8, b);
    assert BoolsRead(utf8, b) == [2];
    assert b[..|b|] == b;
  }
}
