/** The wire format byte by byte: what every tag stands for, and in which order the fields of an operation come. */
module CrdtLayout {
  import opened Bytes
  import opened CrdtCodec

  const HALF := 0x8000_0000_0000_0000

  /** A word as a signed number: two's complement. */
  lemma SignedWord(w: Word, rest: Bytes)
    ensures ReadI64(U64BE(w) + rest) == Ok(if w < HALF then w else w - U64, rest)
  {
    U64Back(w, rest);
  }

  lemma BlobLayout(x: Blob, rest: Bytes)
    ensures ReadBlob(U64BE(|x|) + x + rest) == Ok(x, rest)
  {
    BlobBack(x, rest);
  }

  lemma Tagged(tag: byte, body: Bytes)
    ensures ReadU8([tag] + body) == Ok(tag, body)
  {
    U8Back(tag, body);
  }

  // ----- nested operations

  lemma NestedCounterLayout(w: Word, rest: Bytes)
    ensures ReadNestedOp([1] + (U64BE(w) + rest)) == Ok(NestedCounter(if w < HALF then w else w - U64), rest)
  {
    Tagged(1, U64BE(w) + rest);
    SignedWord(w, rest);
  }

  lemma SetAddLayout(x: Blob, rest: Bytes)
    ensures ReadNestedOp([2] + (U64BE(|x|) + x + rest)) == Ok(SetAdd(x), rest)
  {
    Tagged(2, U64BE(|x|) + x + rest);
    BlobLayout(x, rest);
  }

  lemma SetRemoveLayout(x: Blob, rest: Bytes)
    ensures ReadNestedOp([3] + (U64BE(|x|) + x + rest)) == Ok(SetRemove(x), rest)
  {
    Tagged(3, U64BE(|x|) + x + rest);
    BlobLayout(x, rest);
  }

  lemma AssignLayout(x: Blob, micros: Word, rest: Bytes)
    ensures ReadNestedOp([4] + (U64BE(|x|) + x + (U64BE(micros) + rest))) == Ok(RegisterAssign(x, micros), rest)
  {
    Tagged(4, U64BE(|x|) + x + (U64BE(micros) + rest));
    BlobLayout(x, U64BE(micros) + rest);
    U64Back(micros, rest);
  }

  lemma NestedFlagLayout(flag: byte, rest: Bytes)
    ensures ReadNestedOp([5] + ([flag] + rest)) == Ok(NestedFlag(flag != 0), rest)
  {
    Tagged(5, [flag] + rest);
    Tagged(flag, rest);
  }

  lemma InnerMapLayout(b: Bytes)
    requires ReadMapOp(b).Ok?
    ensures ReadNestedOp([6] + b) == Ok(InnerMap(ReadMapOp(b).value), ReadMapOp(b).rest)
  {
    Tagged(6, b);
  }

  lemma NestedUnknown(tag: byte, rest: Bytes)
    requires tag == 0 || tag > 6
    ensures ReadNestedOp([tag] + rest) == Err(UnknownTag(tag)) && ReadNestedOp([]) == Err(Truncated)
  {
    Tagged(tag, rest);
  }

  /** Every nested operation by its tag. */
  lemma NestedLayout(w: Word, x: Blob, micros: Word, flag: byte, tag: byte, b: Bytes, rest: Bytes)
    ensures ReadNestedOp([1] + (U64BE(w) + rest)) == Ok(NestedCounter(if w < HALF then w else w - U64), rest)
    ensures ReadNestedOp([2] + (U64BE(|x|) + x + rest)) == Ok(SetAdd(x), rest)
    ensures ReadNestedOp([3] + (U64BE(|x|) + x + rest)) == Ok(SetRemove(x), rest)
    ensures ReadNestedOp([4] + (U64BE(|x|) + x + (U64BE(micros) + rest))) == Ok(RegisterAssign(x, micros), rest)
    ensures ReadNestedOp([5] + ([flag] + rest)) == Ok(NestedFlag(flag != 0), rest)
    ensures ReadMapOp(b).Ok? ==> ReadNestedOp([6] + b) == Ok(InnerMap(ReadMapOp(b).value), ReadMapOp(b).rest)
    ensures tag == 0 || tag > 6 ==> ReadNestedOp([tag] + rest) == Err(UnknownTag(tag))
  {
    NestedCounterLayout(w, rest);
    SetAddLayout(x, rest);
    SetRemoveLayout(x, rest);
    AssignLayout(x, micros, rest);
    NestedFlagLayout(flag, rest);
    if ReadMapOp(b).Ok? {
      InnerMapLayout(b);
    }
    if tag == 0 || tag > 6 {
      NestedUnknown(tag, rest);
    }
  }

  // ----- map operations

  /** Field types are numbered from one. */
  predicate NumberedAs(t: FieldType, code: byte) {
    match t
    case PnCounter => code == 1
    case OrSet => code == 2
    case LwwRegister => code == 3
    case EwFlag => code == 4
    case NestedMap => code == 5
  }

  /** A field is its name after its length, and the number of its type. */
  lemma FieldLayout(name: Blob, t: FieldType, code: byte, rest: Bytes)
    ensures NumberedAs(t, code) ==>
      ReadFieldKey(U64BE(|name|) + name + ([code] + rest)) == Ok(FieldKey(name, t), rest)
    ensures code == 0 || code > 5 ==>
      ReadFieldKey(U64BE(|name|) + name + ([code] + rest)) == Err(UnknownTag(code))
  {
    BlobLayout(name, [code] + rest);
    Tagged(code, rest);
  }

  /** A map operation updates a field under tag 1, with the nested operation after it, or removes one under tag 2. */
  lemma MapOpLayout(name: Blob, t: FieldType, code: byte, tag: byte, b: Bytes)
    requires NumberedAs(t, code)
    ensures ReadNestedOp(b).Ok? ==>
      ReadMapOp([1] + (U64BE(|name|) + name + ([code] + b))) ==
      Ok(Update(FieldKey(name, t), ReadNestedOp(b).value), ReadNestedOp(b).rest)
    ensures ReadMapOp([2] + (U64BE(|name|) + name + ([code] + b))) == Ok(Remove(FieldKey(name, t)), b)
    ensures tag == 0 || tag > 2 ==> ReadMapOp([tag] + b) == Err(UnknownTag(tag))
  {
    var field := U64BE(|name|) + name + ([code] + b);
    FieldLayout(name, t, code, b);
    Tagged(1, field);
    Tagged(2, field);
    Tagged(tag, b);
  }

  // ----- lists

  /** Each part is an element after its length. */
  ghost predicate Prefixes(xs: seq<Blob>, parts: seq<Bytes>) {
    |parts| == |xs| && forall i :: 0 <= i < |xs| ==> parts[i] == U64BE(|xs[i]|) + xs[i]
  }

  /** Each part is the bytes of a map operation. */
  ghost predicate Reads(ops: seq<MapOp>, parts: seq<Bytes>) {
    |parts| == |ops| && forall i, rest :: 0 <= i < |ops| ==> ReadMapOp(parts[i] + rest) == Ok(ops[i], rest)
  }

  lemma {:induction false} BlobPartsBack(xs: seq<Blob>, parts: seq<Bytes>, rest: Bytes)
    requires Prefixes(xs, parts)
    ensures ReadMany(ReadBlob, Flat(parts) + rest, |xs|) == Ok(xs, rest)
  {
    if xs == [] {
      assert Flat(parts) + rest == rest;
    } else {
      FlatFirst(parts);
      Assoc(parts[0], Flat(parts[1..]), rest);
      BlobLayout(xs[0], Flat(parts[1..]) + rest);
      BlobPartsBack(xs[1..], parts[1..], rest);
      assert [xs[0]] + xs[1..] == xs;
    }
  }

  lemma FirstReads(ops: seq<MapOp>, parts: seq<Bytes>, more: Bytes)
    requires Reads(ops, parts) && ops != []
    ensures ReadMapOp(parts[0] + more) == Ok(ops[0], more) && Reads(ops[1..], parts[1..])
  {
    forall i, rest | 0 <= i < |ops| - 1 ensures ReadMapOp(parts[1..][i] + rest) == Ok(ops[1..][i], rest) {
      assert ReadMapOp(parts[i + 1] + rest) == Ok(ops[i + 1], rest);
    }
  }

  lemma {:induction false} OpPartsBack(ops: seq<MapOp>, parts: seq<Bytes>, rest: Bytes)
    requires Reads(ops, parts)
    ensures ReadMany(ReadMapOp, Flat(parts) + rest, |ops|) == Ok(ops, rest)
  {
    if ops == [] {
      assert Flat(parts) + rest == rest;
    } else {
      FlatFirst(parts);
      Assoc(parts[0], Flat(parts[1..]), rest);
      FirstReads(ops, parts, Flat(parts[1..]) + rest);
      OpPartsBack(ops[1..], parts[1..], rest);
      assert [ops[0]] + ops[1..] == ops;
    }
  }

  /** A list is its length and its elements in order. */
  lemma ListLayout(xs: Blobs, parts: seq<Bytes>, rest: Bytes)
    requires Prefixes(xs, parts)
    ensures ReadCounted(U64BE(|xs|) + (Flat(parts) + rest)) == Ok(xs, rest)
  {
    U64Back(|xs|, Flat(parts) + rest);
    BlobPartsBack(xs, parts, rest);
  }

  lemma OpListLayout(ops: MapOps, parts: seq<Bytes>, rest: Bytes)
    requires Reads(ops, parts)
    ensures ReadCountedOps(U64BE(|ops|) + (Flat(parts) + rest)) == Ok(ops, rest)
  {
    U64Back(|ops|, Flat(parts) + rest);
    OpPartsBack(ops, parts, rest);
  }

  // ----- whole operations

  /** An operation is its type's tag, the actor's data centre and peer, each after its length, and the payload. */
  lemma OpLayout(utf8: Utf8, tag: byte, actor: ActorId, payload: Bytes)
    requires utf8(actor.dc) && utf8(actor.peer)
    ensures ReadOp(utf8, [tag] + (U64BE(|actor.dc|) + actor.dc + (U64BE(|actor.peer|) + actor.peer + payload))) ==
      ReadPayload(tag, actor, payload)
  {
    var peer := U64BE(|actor.peer|) + actor.peer + payload;
    Tagged(tag, U64BE(|actor.dc|) + actor.dc + peer);
    BlobLayout(actor.dc, peer);
    BlobLayout(actor.peer, payload);
  }

  /** An actor that is not text is reported as truncation, whatever the tag. */
  lemma NotText(utf8: Utf8, tag: byte, dc: Blob, peer: Blob, rest: Bytes)
    ensures !utf8(dc) ==> ReadOp(utf8, [tag] + (U64BE(|dc|) + dc + rest)) == Err(Truncated)
    ensures utf8(dc) && !utf8(peer) ==>
      ReadOp(utf8, [tag] + (U64BE(|dc|) + dc + (U64BE(|peer|) + peer + rest))) == Err(Truncated)
  {
    var more := U64BE(|peer|) + peer + rest;
    Tagged(tag, U64BE(|dc|) + dc + rest);
    BlobLayout(dc, rest);
    Tagged(tag, U64BE(|dc|) + dc + more);
    BlobLayout(dc, more);
    BlobLayout(peer, rest);
  }

  /** The payload of every type by its tag. */
  lemma PayloadLayout(actor: ActorId, w: Word, x: Blob, flag: byte, tag: byte, rest: Bytes)
    ensures ReadPayload(1, actor, U64BE(w) + rest) == Ok(Counter(actor, if w < HALF then w else w - U64), rest)
    ensures ReadPayload(3, actor, U64BE(|x|) + x + rest) == Ok(Register(actor, x), rest)
    ensures ReadPayload(4, actor, [flag] + rest) == Ok(Flag(actor, flag != 0), rest)
    ensures tag == 0 || tag > 6 ==> ReadPayload(tag, actor, rest) == Err(UnknownTag(tag))
  {
    SignedWord(w, rest);
    BlobLayout(x, rest);
    Tagged(flag, rest);
  }

  /** A set's adds come before its removes. */
  lemma SetLayout(actor: ActorId, adds: Blobs, removes: Blobs, addParts: seq<Bytes>, removeParts: seq<Bytes>,
                  rest: Bytes)
    requires Prefixes(adds, addParts) && Prefixes(removes, removeParts)
    ensures ReadPayload(2, actor, U64BE(|adds|) + (Flat(addParts) + (U64BE(|removes|) + (Flat(removeParts) + rest)))) ==
      Ok(Set(actor, adds, removes), rest)
  {
    ListLayout(removes, removeParts, rest);
    ListLayout(adds, addParts, U64BE(|removes|) + (Flat(removeParts) + rest));
  }

  lemma HllLayout(actor: ActorId, items: Blobs, parts: seq<Bytes>, rest: Bytes)
    requires Prefixes(items, parts)
    ensures ReadPayload(6, actor, U64BE(|items|) + (Flat(parts) + rest)) == Ok(Hll(actor, items), rest)
  {
    ListLayout(items, parts, rest);
  }

  lemma MapLayout(actor: ActorId, ops: MapOps, parts: seq<Bytes>, rest: Bytes)
    requires Reads(ops, parts)
    ensures ReadPayload(5, actor, U64BE(|ops|) + (Flat(parts) + rest)) == Ok(Map(actor, ops), rest)
  {
    OpListLayout(ops, parts, rest);
  }

  // ----- the printer

  /** The word of a signed number. */
  predicate IsWordOf(w: Word, d: I64) {
    if 0 <= d then w == d else w == d + U64
  }

  /** Every nested operation as it is printed. */
  lemma PrintsNested(d: I64, w: Word, x: Blob, micros: Word, enable: bool, inner: MapOp)
    requires IsWordOf(w, d)
    ensures NestedBytes(NestedCounter(d)) == [1] + U64BE(w)
    ensures NestedBytes(SetAdd(x)) == [2] + U64BE(|x|) + x
    ensures NestedBytes(SetRemove(x)) == [3] + U64BE(|x|) + x
    ensures NestedBytes(RegisterAssign(x, micros)) == [4] + U64BE(|x|) + x + U64BE(micros)
    ensures NestedBytes(NestedFlag(enable)) == if enable then [5, 1] else [5, 0]
    ensures NestedBytes(InnerMap(inner)) == [6] + MapOpBytes(inner)
  {
    Assoc([2], U64BE(|x|), x);
    Assoc([3], U64BE(|x|), x);
    Regroup([4], U64BE(|x|), x, U64BE(micros));
    Assoc(U64BE(|x|), x, U64BE(micros));
  }

  /** Every map operation as it is printed. */
  lemma PrintsMapOp(name: Blob, t: FieldType, code: byte, op: NestedOp)
    requires NumberedAs(t, code)
    ensures MapOpBytes(Update(FieldKey(name, t), op)) == [1] + (U64BE(|name|) + name + [code] + NestedBytes(op))
    ensures MapOpBytes(Remove(FieldKey(name, t))) == [2] + (U64BE(|name|) + name + [code])
  {
  }

  lemma {:induction false} PrintsList(xs: Blobs, parts: seq<Bytes>)
    requires Prefixes(xs, parts)
    ensures BlobsBytes(xs) == U64BE(|xs|) + Flat(parts)
  {
    PrintsParts(xs, parts);
  }

  lemma {:induction false} PrintsParts(xs: seq<Blob>, parts: seq<Bytes>)
    requires Prefixes(xs, parts)
    ensures ManyBytes(Lp, xs) == Flat(parts)
  {
    if xs != [] {
      FlatFirst(parts);
      PrintsParts(xs[1..], parts[1..]);
    }
  }

  lemma {:induction false} PrintsOps(ops: seq<MapOp>, parts: seq<Bytes>)
    requires |parts| == |ops| && forall i :: 0 <= i < |ops| ==> parts[i] == MapOpBytes(ops[i])
    ensures ManyBytes(MapOpBytes, ops) == Flat(parts)
  {
    if ops != [] {
      FlatFirst(parts);
      PrintsOps(ops[1..], parts[1..]);
    }
  }

  /** The tag and the actor of every operation as they are printed, before the payload. */
  lemma PrintsOp(op: CrdtOp)
    ensures var actor := U64BE(|op.actor.dc|) + op.actor.dc + (U64BE(|op.actor.peer|) + op.actor.peer + Payload(op));
      ToBytes(op) == match op {
        case Counter(_, _) => [1] + actor
        case Set(_, _, _) => [2] + actor
        case Register(_, _) => [3] + actor
        case Flag(_, _) => [4] + actor
        case Map(_, _) => [5] + actor
        case Hll(_, _) => [6] + actor
      }
  {
  }

  /** The payload of every operation as it is printed. */
  lemma PrintsPayload(op: CrdtOp, w: Word, parts: seq<Bytes>, more: seq<Bytes>)
    requires op.Counter? ==> IsWordOf(w, op.delta)
    requires op.Set? ==> Prefixes(op.adds, parts) && Prefixes(op.removes, more)
    requires op.Hll? ==> Prefixes(op.items, parts)
    requires op.Map? ==> |parts| == |op.ops| && forall i :: 0 <= i < |op.ops| ==> parts[i] == MapOpBytes(op.ops[i])
    ensures Payload(op) == match op {
        case Counter(_, _) => U64BE(w)
        case Set(_, adds, removes) => U64BE(|adds|) + Flat(parts) + (U64BE(|removes|) + Flat(more))
        case Register(_, value) => U64BE(|value|) + value
        case Flag(_, enable) => if enable then [1] else [0]
        case Map(_, ops) => U64BE(|ops|) + Flat(parts)
        case Hll(_, items) => U64BE(|items|) + Flat(parts)
      }
  {
    match op
    case Set(_, adds, removes) =>
      PrintsList(adds, parts);
      PrintsList(removes, more);
    case Hll(_, items) => PrintsList(items, parts);
    case Map(_, ops) => PrintsOps(ops, parts);
    case _ =>
  }
}
