/** The replication wire format of CRDT operations: a length-prefixed printer and its parser. */
module CrdtCodec {
  import opened Bytes

  // ----- operations

  /** A byte string that fits in memory. */
  type Blob = b: Bytes | |b| < U64

  type Blobs = bs: seq<Blob> | |bs| < U64

  type I64 = d: int | -0x8000_0000_0000_0000 <= d < 0x8000_0000_0000_0000

  type Word = n: nat | n < U64

  datatype FieldType = PnCounter | OrSet | LwwRegister | EwFlag | NestedMap

  datatype FieldKey = FieldKey(name: Blob, fieldType: FieldType)

  datatype NestedOp =
    | NestedCounter(delta: I64)
    | SetAdd(elt: Blob)
    | SetRemove(elt: Blob)
    | RegisterAssign(value: Blob, micros: Word)
    | NestedFlag(enable: bool)
    | InnerMap(inner: MapOp)

  datatype MapOp = Update(field: FieldKey, op: NestedOp) | Remove(field: FieldKey)

  type MapOps = ops: seq<MapOp> | |ops| < U64

  datatype ActorId = ActorId(dc: Blob, peer: Blob)

  datatype CrdtOp =
    | Counter(actor: ActorId, delta: I64)
    | Set(actor: ActorId, adds: Blobs, removes: Blobs)
    | Register(actor: ActorId, value: Blob)
    | Flag(actor: ActorId, enable: bool)
    | Map(actor: ActorId, ops: MapOps)
    | Hll(actor: ActorId, items: Blobs)

  /** Whether bytes are valid UTF-8 is a parameter: the results hold for any validity test. */
  type Utf8 = Bytes -> bool

  ghost predicate TextOk(utf8: Utf8, op: CrdtOp) {
    utf8(op.actor.dc) && utf8(op.actor.peer)
  }

  // ----- printing

  function TypeTag(op: CrdtOp): byte {
    match op
    case Counter(_, _) => 1
    case Set(_, _, _) => 2
    case Register(_, _) => 3
    case Flag(_, _) => 4
    case Map(_, _) => 5
    case Hll(_, _) => 6
  }

  function FieldCode(t: FieldType): byte {
    match t
    case PnCounter => 1
    case OrSet => 2
    case LwwRegister => 3
    case EwFlag => 4
    case NestedMap => 5
  }

  /** Two's complement as an unsigned word. */
  function ToWord(d: I64): Word {
    if d < 0 then d + U64 else d
  }

  function OfWord(n: Word): I64 {
    if n >= 0x8000_0000_0000_0000 then n - U64 else n
  }

  function Lp(b: Blob): Bytes {
    U64BE(|b|) + b
  }

  function BoolByte(b: bool): byte {
    if b then 1 else 0
  }

  function FieldKeyBytes(k: FieldKey): Bytes {
    Lp(k.name) + [FieldCode(k.fieldType)]
  }

  function MapOpBytes(op: MapOp): Bytes {
    match op
    case Update(field, op) => [1] + (FieldKeyBytes(field) + NestedBytes(op))
    case Remove(field) => [2] + FieldKeyBytes(field)
  }

  function NestedBytes(op: NestedOp): Bytes {
    match op
    case NestedCounter(delta) => [1] + U64BE(ToWord(delta))
    case SetAdd(elt) => [2] + Lp(elt)
    case SetRemove(elt) => [3] + Lp(elt)
    case RegisterAssign(value, micros) => [4] + (Lp(value) + U64BE(micros))
    case NestedFlag(enable) => [5] + [BoolByte(enable)]
    case InnerMap(inner) => [6] + MapOpBytes(inner)
  }

  function ManyBytes<T>(enc: T -> Bytes, xs: seq<T>): Bytes {
    if xs == [] then [] else enc(xs[0]) + ManyBytes(enc, xs[1..])
  }

  function BlobsBytes(xs: Blobs): Bytes {
    U64BE(|xs|) + ManyBytes(Lp, xs)
  }

  function OpsBytes(xs: MapOps): Bytes {
    U64BE(|xs|) + ManyBytes(MapOpBytes, xs)
  }

  function Payload(op: CrdtOp): Bytes {
    match op
    case Counter(_, delta) => U64BE(ToWord(delta))
    case Set(_, adds, removes) => BlobsBytes(adds) + BlobsBytes(removes)
    case Register(_, value) => Lp(value)
    case Flag(_, enable) => [BoolByte(enable)]
    case Map(_, ops) => OpsBytes(ops)
    case Hll(_, items) => BlobsBytes(items)
  }

  function ToBytes(op: CrdtOp): Bytes {
    [TypeTag(op)] + (Lp(op.actor.dc) + (Lp(op.actor.peer) + Payload(op)))
  }

  // ----- parsing

  datatype Error = Truncated | UnknownTag(tag: byte)

  /** A parsed value and the bytes after it, or the reason there is none. */
  datatype Parsed<+T> = Ok(value: T, rest: Bytes) | Err(error: Error) {
    predicate IsFailure() {
      Err?
    }

    function PropagateFailure<U>(): Parsed<U>
      requires Err?
    {
      Err(error)
    }

    function Extract(): (T, Bytes)
      requires Ok?
    {
      (value, rest)
    }
  }

  function ReadU8(b: Bytes): (r: Parsed<byte>)
    ensures r.Ok? ==> |r.rest| < |b|
  {
    if b == [] then Err(Truncated) else Ok(b[0], b[1..])
  }

  function ReadU64(b: Bytes): (r: Parsed<Word>)
    ensures r.Ok? ==> |r.rest| + 8 == |b|
  {
    if |b| < 8 then Err(Truncated)
    else
      ToFromBE(b[..8]);
      Powers();
      Ok(FromBE(b[..8]), b[8..])
  }

  function ReadI64(b: Bytes): (r: Parsed<I64>)
    ensures r.Ok? ==> |r.rest| < |b|
  {
    var (n, rest) :- ReadU64(b);
    Ok(OfWord(n), rest)
  }

  function ReadBlob(b: Bytes): (r: Parsed<Blob>)
    ensures r.Ok? ==> |r.rest| + 8 <= |b|
  {
    var (n, rest) :- ReadU64(b);
    if |rest| < n then Err(Truncated) else Ok(rest[..n], rest[n..])
  }

  function ReadText(utf8: Utf8, b: Bytes): (r: Parsed<Blob>)
    ensures r.Ok? ==> |r.rest| < |b|
  {
    var (s, rest) :- ReadBlob(b);
    if utf8(s) then Ok(s, rest) else Err(Truncated)
  }

  function ReadFieldType(b: Bytes): (r: Parsed<FieldType>)
    ensures r.Ok? ==> |r.rest| < |b|
  {
    var (code, rest) :- ReadU8(b);
    if code == 1 then Ok(PnCounter, rest)
    else if code == 2 then Ok(OrSet, rest)
    else if code == 3 then Ok(LwwRegister, rest)
    else if code == 4 then Ok(EwFlag, rest)
    else if code == 5 then Ok(NestedMap, rest)
    else Err(UnknownTag(code))
  }

  function ReadFieldKey(b: Bytes): (r: Parsed<FieldKey>)
    ensures r.Ok? ==> |r.rest| < |b|
  {
    var (name, b1) :- ReadBlob(b);
    var (t, b2) :- ReadFieldType(b1);
    Ok(FieldKey(name, t), b2)
  }

  function ReadMapOp(b: Bytes): (r: Parsed<MapOp>)
    ensures r.Ok? ==> |r.rest| < |b|
    decreases |b|, 0
  {
    var (tag, b1) :- ReadU8(b);
    if tag == 1 then ReadUpdate(b1)
    else if tag == 2 then ReadRemove(b1)
    else Err(UnknownTag(tag))
  }

  function ReadRemove(b: Bytes): (r: Parsed<MapOp>)
    ensures r.Ok? ==> |r.rest| < |b|
  {
    var (field, b1) :- ReadFieldKey(b);
    Ok(Remove(field), b1)
  }

  function ReadUpdate(b: Bytes): (r: Parsed<MapOp>)
    ensures r.Ok? ==> |r.rest| < |b|
    decreases |b|, 0
  {
    var (field, b1) :- ReadFieldKey(b);
    var (op, b2) :- ReadNestedOp(b1);
    Ok(Update(field, op), b2)
  }

  function ReadAssign(b: Bytes): (r: Parsed<NestedOp>)
    ensures r.Ok? ==> |r.rest| < |b|
  {
    var (value, b1) :- ReadBlob(b);
    var (micros, b2) :- ReadU64(b1);
    Ok(RegisterAssign(value, micros), b2)
  }

  function ReadNestedOp(b: Bytes): (r: Parsed<NestedOp>)
    ensures r.Ok? ==> |r.rest| < |b|
    decreases |b|, 0
  {
    var (tag, b1) :- ReadU8(b);
    if tag == 6 then ReadInner(b1) else ReadLeaf(tag, b1)
  }

  function ReadInner(b: Bytes): (r: Parsed<NestedOp>)
    ensures r.Ok? ==> |r.rest| < |b|
    decreases |b|, 1
  {
    var (inner, b1) :- ReadMapOp(b);
    Ok(InnerMap(inner), b1)
  }

  function ReadLeaf(tag: byte, b: Bytes): (r: Parsed<NestedOp>)
    ensures r.Ok? ==> |r.rest| < |b|
  {
    if tag == 1 then
      var (delta, b1) :- ReadI64(b);
      Ok(NestedCounter(delta), b1)
    else if tag == 2 then
      var (elt, b1) :- ReadBlob(b);
      Ok(SetAdd(elt), b1)
    else if tag == 3 then
      var (elt, b1) :- ReadBlob(b);
      Ok(SetRemove(elt), b1)
    else if tag == 4 then ReadAssign(b)
    else if tag == 5 then
      var (flag, b1) :- ReadU8(b);
      Ok(NestedFlag(flag != 0), b1)
    else Err(UnknownTag(tag))
  }

  type Parser<!T> = Bytes -> Parsed<T>

  ghost predicate Consumes<T>(parse: Parser<T>) {
    forall b :: parse(b).Ok? ==> |parse(b).rest| < |b|
  }

  function ReadMany<T>(parse: Parser<T>, b: Bytes, n: nat): (r: Parsed<seq<T>>)
    requires Consumes(parse)
    ensures r.Ok? ==> |r.value| == n && |r.rest| <= |b|
    decreases n
  {
    if n == 0 then Ok([], b)
    else
      var (x, b1) :- parse(b);
      var (xs, b2) :- ReadMany(parse, b1, n - 1);
      Ok([x] + xs, b2)
  }

  function ReadCounted(b: Bytes): (r: Parsed<Blobs>)
    ensures r.Ok? ==> |r.rest| < |b|
  {
    var (n, b1) :- ReadU64(b);
    var (xs, b2) :- ReadMany(ReadBlob, b1, n);
    Ok(xs, b2)
  }

  function ReadCountedOps(b: Bytes): (r: Parsed<MapOps>)
    ensures r.Ok? ==> |r.rest| < |b|
  {
    var (n, b1) :- ReadU64(b);
    var (xs, b2) :- ReadMany(ReadMapOp, b1, n);
    Ok(xs, b2)
  }

  function ReadSet(actor: ActorId, b: Bytes): (r: Parsed<CrdtOp>)
    ensures r.Ok? ==> |r.rest| < |b|
  {
    var (adds, b1) :- ReadCounted(b);
    var (removes, b2) :- ReadCounted(b1);
    Ok(Set(actor, adds, removes), b2)
  }

  function ReadPayload(tag: byte, actor: ActorId, b: Bytes): (r: Parsed<CrdtOp>)
    ensures r.Ok? ==> |r.rest| < |b|
  {
    if tag == 1 then
      var (delta, b1) :- ReadI64(b);
      Ok(Counter(actor, delta), b1)
    else if tag == 2 then ReadSet(actor, b)
    else if tag == 3 then
      var (value, b1) :- ReadBlob(b);
      Ok(Register(actor, value), b1)
    else if tag == 4 then
      var (flag, b1) :- ReadU8(b);
      Ok(Flag(actor, flag != 0), b1)
    else if tag == 5 then
      var (ops, b1) :- ReadCountedOps(b);
      Ok(Map(actor, ops), b1)
    else if tag == 6 then
      var (items, b1) :- ReadCounted(b);
      Ok(Hll(actor, items), b1)
    else Err(UnknownTag(tag))
  }

  /** Parse one operation off the front of `b`; the caller of `from_bytes` drops what follows it. */
  function ReadOp(utf8: Utf8, b: Bytes): (r: Parsed<CrdtOp>)
    ensures r.Ok? ==> |r.rest| < |b|
  {
    var (tag, b1) :- ReadU8(b);
    ReadBody(utf8, tag, b1)
  }

  function ReadBody(utf8: Utf8, tag: byte, b: Bytes): (r: Parsed<CrdtOp>)
    ensures r.Ok? ==> |r.rest| < |b|
  {
    var (actor, b1) :- ReadActor(utf8, b);
    ReadPayload(tag, actor, b1)
  }

  function ReadActor(utf8: Utf8, b: Bytes): (r: Parsed<ActorId>)
    ensures r.Ok? ==> |r.rest| < |b|
  {
    var (dc, b1) :- ReadText(utf8, b);
    var (peer, b2) :- ReadText(utf8, b1);
    Ok(ActorId(dc, peer), b2)
  }

  // ----- what is printed parses back

  lemma U8Back(x: byte, rest: Bytes)
    ensures ReadU8([x] + rest) == Ok(x, rest)
  {
    assert ([x] + rest)[1..] == rest;
  }

  lemma U64Back(n: Word, rest: Bytes)
    ensures ReadU64(U64BE(n) + rest) == Ok(n, rest)
  {
    U64RoundTrip(n);
    assert (U64BE(n) + rest)[..8] == U64BE(n) && (U64BE(n) + rest)[8..] == rest;
  }

  lemma I64Back(d: I64, rest: Bytes)
    ensures ReadI64(U64BE(ToWord(d)) + rest) == Ok(d, rest)
  {
    U64Back(ToWord(d), rest);
  }

  lemma BlobBack(x: Blob, rest: Bytes)
    ensures ReadBlob(Lp(x) + rest) == Ok(x, rest)
  {
    Assoc(U64BE(|x|), x, rest);
    U64Back(|x|, x + rest);
    assert (x + rest)[..|x|] == x && (x + rest)[|x|..] == rest;
  }

  lemma FieldKeyBack(k: FieldKey, rest: Bytes)
    ensures ReadFieldKey(FieldKeyBytes(k) + rest) == Ok(k, rest)
  {
    var code := FieldCode(k.fieldType);
    Assoc(Lp(k.name), [code], rest);
    BlobBack(k.name, [code] + rest);
    U8Back(code, rest);
  }

  lemma {:induction false} MapOpBack(op: MapOp, rest: Bytes)
    ensures ReadMapOp(MapOpBytes(op) + rest) == Ok(op, rest)
    decreases op
  {
    match op
    case Update(field, nested) =>
      TaggedBack(1, FieldKeyBytes(field) + NestedBytes(nested), rest);
      Assoc(FieldKeyBytes(field), NestedBytes(nested), rest);
      FieldKeyBack(field, NestedBytes(nested) + rest);
      NestedBack(nested, rest);
    case Remove(field) =>
      TaggedBack(2, FieldKeyBytes(field), rest);
      FieldKeyBack(field, rest);
  }

  lemma {:induction false} NestedBack(op: NestedOp, rest: Bytes)
    ensures ReadNestedOp(NestedBytes(op) + rest) == Ok(op, rest)
    decreases op
  {
    if op.InnerMap? {
      TaggedBack(6, MapOpBytes(op.inner), rest);
      MapOpBack(op.inner, rest);
    } else {
      LeafBack(op, rest);
    }
  }

  lemma LeafBack(op: NestedOp, rest: Bytes)
    requires !op.InnerMap?
    ensures ReadNestedOp(NestedBytes(op) + rest) == Ok(op, rest)
  {
    match op
    case NestedCounter(delta) =>
      TaggedBack(1, U64BE(ToWord(delta)), rest);
      I64Back(delta, rest);
    case SetAdd(elt) => EltBack(op, rest);
    case SetRemove(elt) => EltBack(op, rest);
    case RegisterAssign(value, micros) =>
      TaggedBack(4, Lp(value) + U64BE(micros), rest);
      AssignBack(value, micros, rest);
    case NestedFlag(enable) =>
      TaggedBack(5, [BoolByte(enable)], rest);
      U8Back(BoolByte(enable), rest);
  }

  lemma EltBack(op: NestedOp, rest: Bytes)
    requires op.SetAdd? || op.SetRemove?
    ensures ReadNestedOp(NestedBytes(op) + rest) == Ok(op, rest)
  {
    TaggedBack(if op.SetAdd? then 2 else 3, Lp(op.elt), rest);
    BlobBack(op.elt, rest);
  }

  lemma AssignBack(value: Blob, micros: Word, rest: Bytes)
    ensures ReadAssign((Lp(value) + U64BE(micros)) + rest) == Ok(RegisterAssign(value, micros), rest)
  {
    Assoc(Lp(value), U64BE(micros), rest);
    BlobBack(value, U64BE(micros) + rest);
    U64Back(micros, rest);
  }

  lemma TaggedBack(tag: byte, body: Bytes, rest: Bytes)
    ensures ReadU8(([tag] + body) + rest) == Ok(tag, body + rest)
  {
    Assoc([tag], body, rest);
    U8Back(tag, body + rest);
  }

  ghost predicate ParsesBack<T(!new)>(enc: T -> Bytes, parse: Parser<T>) {
    forall x, rest :: parse(enc(x) + rest) == Ok(x, rest)
  }

  lemma {:induction false} ManyBack<T(!new)>(enc: T -> Bytes, parse: Parser<T>, xs: seq<T>, rest: Bytes)
    requires Consumes(parse) && ParsesBack(enc, parse)
    ensures ReadMany(parse, ManyBytes(enc, xs) + rest, |xs|) == Ok(xs, rest)
  {
    if xs == [] {
      assert ManyBytes(enc, xs) + rest == rest;
    } else {
      Assoc(enc(xs[0]), ManyBytes(enc, xs[1..]), rest);
      ManyBack(enc, parse, xs[1..], rest);
      assert [xs[0]] + xs[1..] == xs;
    }
  }

  lemma BlobsBack(xs: Blobs, rest: Bytes)
    ensures ReadCounted(BlobsBytes(xs) + rest) == Ok(xs, rest)
  {
    var body := ManyBytes(Lp, xs);
    Assoc(U64BE(|xs|), body, rest);
    U64Back(|xs|, body + rest);
    forall x: Blob, more: Bytes ensures ReadBlob(Lp(x) + more) == Ok(x, more) {
      BlobBack(x, more);
    }
    ManyBack(Lp, ReadBlob, xs, rest);
  }

  lemma OpsBack(xs: MapOps, rest: Bytes)
    ensures ReadCountedOps(OpsBytes(xs) + rest) == Ok(xs, rest)
  {
    var body := ManyBytes(MapOpBytes, xs);
    Assoc(U64BE(|xs|), body, rest);
    U64Back(|xs|, body + rest);
    forall x: MapOp, more: Bytes ensures ReadMapOp(MapOpBytes(x) + more) == Ok(x, more) {
      MapOpBack(x, more);
    }
    ManyBack(MapOpBytes, ReadMapOp, xs, rest);
  }

  lemma SetBack(op: CrdtOp, rest: Bytes)
    requires op.Set?
    ensures ReadSet(op.actor, Payload(op) + rest) == Ok(op, rest)
  {
    Assoc(BlobsBytes(op.adds), BlobsBytes(op.removes), rest);
    BlobsBack(op.adds, BlobsBytes(op.removes) + rest);
    BlobsBack(op.removes, rest);
  }

  lemma PayloadBack(op: CrdtOp, rest: Bytes)
    ensures ReadPayload(TypeTag(op), op.actor, Payload(op) + rest) == Ok(op, rest)
  {
    match op
    case Counter(_, delta) => I64Back(delta, rest);
    case Set(_, _, _) => SetBack(op, rest);
    case Register(_, value) => BlobBack(value, rest);
    case Flag(_, enable) => U8Back(BoolByte(enable), rest);
    case Map(_, ops) => OpsBack(ops, rest);
    case Hll(_, items) => BlobsBack(items, rest);
  }

  lemma ActorBack(utf8: Utf8, actor: ActorId, rest: Bytes)
    requires utf8(actor.dc) && utf8(actor.peer)
    ensures ReadActor(utf8, Lp(actor.dc) + (Lp(actor.peer) + rest)) == Ok(actor, rest)
  {
    BlobBack(actor.dc, Lp(actor.peer) + rest);
    BlobBack(actor.peer, rest);
  }

  /** Every operation, however deeply its maps nest, parses back to itself; bytes after it are left over. */
  lemma OpRoundTrip(utf8: Utf8, op: CrdtOp, rest: Bytes)
    requires TextOk(utf8, op)
    ensures ReadOp(utf8, ToBytes(op) + rest) == Ok(op, rest)
  {
    var dc, peer, body := Lp(op.actor.dc), Lp(op.actor.peer), Payload(op);
    TaggedBack(TypeTag(op), dc + (peer + body), rest);
    Assoc(dc, peer + body, rest);
    Assoc(peer, body, rest);
    ActorBack(utf8, op.actor, body + rest);
    PayloadBack(op, rest);
  }

  // ----- cutting the input short

  /** What a parser that succeeded on `n` bytes must return on the first `m` of them. */
  function Cut<T>(r: Parsed<T>, n: nat, m: nat): Parsed<T>
    requires m <= n && (r.Ok? ==> |r.rest| <= n)
  {
    if r.Err? then r
    else if n - |r.rest| <= m then Ok(r.value, r.rest[..m - (n - |r.rest|)])
    else Err(Truncated)
  }

  /** Cutting the input of one parser followed by another. */
  lemma CutThen<T, U>(first: Parsed<T>, whole: Parsed<U>, n: nat, m: nat)
    requires first.Ok? && whole.Ok? && |whole.rest| <= |first.rest| <= n && m <= n
    ensures Cut(first, n, m).Ok? ==>
      && |Cut(first, n, m).rest| == m - (n - |first.rest|) <= |first.rest|
      && Cut(first, n, m).rest == first.rest[..m - (n - |first.rest|)]
      && Cut(whole, n, m) == Cut(whole, |first.rest|, m - (n - |first.rest|))
    ensures Cut(first, n, m).Err? ==> Cut(first, n, m) == Err(Truncated) && Cut(whole, n, m) == Err(Truncated)
  {
  }

  /** Cutting the input of two parsers run one after the other, from what each does on the cut. */
  lemma CutBoth<T, U, V>(n: nat, m: nat, r1: Parsed<T>, c1: Parsed<T>, r2: Parsed<U>, c2: Parsed<U>, v: V)
    requires r1.Ok? && r2.Ok? && |r2.rest| <= |r1.rest| <= n && m <= n
    requires c1 == Cut(r1, n, m) && (c1.Ok? ==> |c1.rest| <= |r1.rest| && c2 == Cut(r2, |r1.rest|, |c1.rest|))
    ensures Cut(Ok(v, r2.rest), n, m) ==
      if c1.Err? then Err(c1.error) else if c2.Err? then Err(c2.error) else Ok(v, c2.rest)
  {
  }

  lemma U8Cut(b: Bytes, m: nat)
    requires m <= |b| && ReadU8(b).Ok?
    ensures ReadU8(b[..m]) == Cut(ReadU8(b), |b|, m)
  {
    if m > 0 {
      assert b[..m][1..] == b[1..][..m - 1];
    }
  }

  lemma U64Cut(b: Bytes, m: nat)
    requires m <= |b| && ReadU64(b).Ok?
    ensures ReadU64(b[..m]) == Cut(ReadU64(b), |b|, m)
  {
    if m >= 8 {
      assert b[..m][..8] == b[..8] && b[..m][8..] == b[8..][..m - 8];
    }
  }

  lemma BlobCut(b: Bytes, m: nat)
    requires m <= |b| && ReadBlob(b).Ok?
    ensures ReadBlob(b[..m]) == Cut(ReadBlob(b), |b|, m)
  {
    U64Cut(b, m);
    if m >= 8 {
      var n: nat, rest := ReadU64(b).value, ReadU64(b).rest;
      if m >= 8 + n {
        assert rest[..m - 8][..n] == rest[..n] && rest[..m - 8][n..] == rest[n..][..m - 8 - n];
      }
    }
  }

  lemma TextCut(utf8: Utf8, b: Bytes, m: nat)
    requires m <= |b| && ReadText(utf8, b).Ok?
    ensures ReadText(utf8, b[..m]) == Cut(ReadText(utf8, b), |b|, m)
  {
    BlobCut(b, m);
  }

  lemma FieldKeyCut(b: Bytes, m: nat)
    requires m <= |b| && ReadFieldKey(b).Ok?
    ensures ReadFieldKey(b[..m]) == Cut(ReadFieldKey(b), |b|, m)
  {
    var first := ReadBlob(b);
    BlobCut(b, m);
    CutThen(first, ReadFieldKey(b), |b|, m);
    if |b| - |first.rest| <= m {
      U8Cut(first.rest, m - (|b| - |first.rest|));
    }
  }

  lemma {:induction false} UpdateCut(b: Bytes, m: nat)
    requires m <= |b| && ReadUpdate(b).Ok?
    ensures ReadUpdate(b[..m]) == Cut(ReadUpdate(b), |b|, m)
    decreases |b|, 0
  {
    var first := ReadFieldKey(b);
    FieldKeyCut(b, m);
    CutThen(first, ReadUpdate(b), |b|, m);
    if |b| - |first.rest| <= m {
      NestedCut(first.rest, m - (|b| - |first.rest|));
    }
  }

  lemma RemoveCut(b: Bytes, m: nat)
    requires m <= |b| && ReadRemove(b).Ok?
    ensures ReadRemove(b[..m]) == Cut(ReadRemove(b), |b|, m)
  {
    FieldKeyCut(b, m);
  }

  /** Cutting the input of a parser that follows a tag byte. */
  lemma TagCut<T>(b: Bytes, m: nat, r: Parsed<T>, c: Parsed<T>)
    requires b != [] && m <= |b| && r.Ok? && |r.rest| < |b| && (m > 0 ==> c == Cut(r, |b| - 1, m - 1))
    ensures Cut(r, |b|, m) == if m == 0 then Err(Truncated) else c
    ensures m > 0 ==> ReadU8(b[..m]) == Ok(b[0], b[1..][..m - 1])
  {
    if m > 0 {
      assert b[..m][1..] == b[1..][..m - 1];
    }
  }

  lemma {:induction false} MapOpCut(b: Bytes, m: nat)
    requires m <= |b| && ReadMapOp(b).Ok?
    ensures ReadMapOp(b[..m]) == Cut(ReadMapOp(b), |b|, m)
    decreases |b|, 1
  {
    var k := if m == 0 then 0 else m - 1;
    if b[0] == 1 {
      UpdateCut(b[1..], k);
      TagCut(b, m, ReadUpdate(b[1..]), ReadUpdate(b[1..][..k]));
    } else {
      RemoveCut(b[1..], k);
      TagCut(b, m, ReadRemove(b[1..]), ReadRemove(b[1..][..k]));
    }
  }

  lemma AssignCut(b: Bytes, m: nat)
    requires m <= |b| && ReadAssign(b).Ok?
    ensures ReadAssign(b[..m]) == Cut(ReadAssign(b), |b|, m)
  {
    var first := ReadBlob(b);
    BlobCut(b, m);
    CutThen(first, ReadAssign(b), |b|, m);
    if |b| - |first.rest| <= m {
      U64Cut(first.rest, m - (|b| - |first.rest|));
    }
  }

  lemma LeafCut(tag: byte, b: Bytes, m: nat)
    requires m <= |b| && ReadLeaf(tag, b).Ok?
    ensures ReadLeaf(tag, b[..m]) == Cut(ReadLeaf(tag, b), |b|, m)
  {
    if tag == 1 {
      U64Cut(b, m);
    } else if tag == 2 || tag == 3 {
      BlobCut(b, m);
    } else if tag == 4 {
      AssignCut(b, m);
    } else {
      U8Cut(b, m);
    }
  }

  lemma {:induction false} InnerCut(b: Bytes, m: nat)
    requires m <= |b| && ReadInner(b).Ok?
    ensures ReadInner(b[..m]) == Cut(ReadInner(b), |b|, m)
    decreases |b|, 2
  {
    MapOpCut(b, m);
  }

  lemma {:induction false} NestedCut(b: Bytes, m: nat)
    requires m <= |b| && ReadNestedOp(b).Ok?
    ensures ReadNestedOp(b[..m]) == Cut(ReadNestedOp(b), |b|, m)
    decreases |b|, 1
  {
    var k := if m == 0 then 0 else m - 1;
    if b[0] == 6 {
      InnerCut(b[1..], k);
      TagCut(b, m, ReadInner(b[1..]), ReadInner(b[1..][..k]));
    } else {
      LeafCut(b[0], b[1..], k);
      TagCut(b, m, ReadLeaf(b[0], b[1..]), ReadLeaf(b[0], b[1..][..k]));
    }
  }

  ghost predicate CutsAt<T>(parse: Parser<T>, b: Bytes, m: nat) {
    Consumes(parse) && parse(b).Ok? && m <= |b| ==> parse(b[..m]) == Cut(parse(b), |b|, m)
  }

  lemma {:induction false} ManyCut<T>(parse: Parser<T>, b: Bytes, n: nat, m: nat)
    requires Consumes(parse) && m <= |b| && ReadMany(parse, b, n).Ok?
    requires forall b', m' :: CutsAt(parse, b', m')
    ensures ReadMany(parse, b[..m], n) == Cut(ReadMany(parse, b, n), |b|, m)
    decreases n
  {
    if n > 0 {
      var first := parse(b);
      assert CutsAt(parse, b, m);
      CutThen(first, ReadMany(parse, b, n), |b|, m);
      if |b| - |first.rest| <= m {
        ManyCut(parse, first.rest, n - 1, m - (|b| - |first.rest|));
      }
    }
  }

  lemma CountedCut(b: Bytes, m: nat)
    requires m <= |b| && ReadCounted(b).Ok?
    ensures ReadCounted(b[..m]) == Cut(ReadCounted(b), |b|, m)
  {
    var first := ReadU64(b);
    U64Cut(b, m);
    CutThen(first, ReadCounted(b), |b|, m);
    forall b': Bytes, m': nat ensures CutsAt(ReadBlob, b', m') {
      if ReadBlob(b').Ok? && m' <= |b'| {
        BlobCut(b', m');
      }
    }
    if 8 <= m {
      ManyCut(ReadBlob, first.rest, first.value, m - 8);
    }
  }

  lemma CountedOpsCut(b: Bytes, m: nat)
    requires m <= |b| && ReadCountedOps(b).Ok?
    ensures ReadCountedOps(b[..m]) == Cut(ReadCountedOps(b), |b|, m)
  {
    var first := ReadU64(b);
    U64Cut(b, m);
    CutThen(first, ReadCountedOps(b), |b|, m);
    forall b': Bytes, m': nat ensures CutsAt(ReadMapOp, b', m') {
      if ReadMapOp(b').Ok? && m' <= |b'| {
        MapOpCut(b', m');
      }
    }
    if 8 <= m {
      ManyCut(ReadMapOp, first.rest, first.value, m - 8);
    }
  }

  lemma SetCut(actor: ActorId, b: Bytes, m: nat)
    requires m <= |b| && ReadSet(actor, b).Ok?
    ensures ReadSet(actor, b[..m]) == Cut(ReadSet(actor, b), |b|, m)
  {
    var first := ReadCounted(b);
    CountedCut(b, m);
    CutThen(first, ReadSet(actor, b), |b|, m);
    if |b| - |first.rest| <= m {
      CountedCut(first.rest, m - (|b| - |first.rest|));
    }
  }

  lemma PayloadCut(tag: byte, actor: ActorId, b: Bytes, m: nat)
    requires m <= |b| && ReadPayload(tag, actor, b).Ok?
    ensures ReadPayload(tag, actor, b[..m]) == Cut(ReadPayload(tag, actor, b), |b|, m)
  {
    if tag == 1 {
      U64Cut(b, m);
    } else if tag == 2 {
      SetCut(actor, b, m);
    } else if tag == 3 {
      BlobCut(b, m);
    } else if tag == 4 {
      U8Cut(b, m);
    } else if tag == 5 {
      CountedOpsCut(b, m);
    } else {
      CountedCut(b, m);
    }
  }

  lemma ActorCut(utf8: Utf8, b: Bytes, m: nat)
    requires m <= |b| && ReadActor(utf8, b).Ok?
    ensures ReadActor(utf8, b[..m]) == Cut(ReadActor(utf8, b), |b|, m)
  {
    var r1, c1 := ReadText(utf8, b), ReadText(utf8, b[..m]);
    var r2 := ReadText(utf8, r1.rest);
    TextCut(utf8, b, m);
    var c2 := r2;
    if c1.Ok? {
      TextCut(utf8, r1.rest, |c1.rest|);
      c2 := ReadText(utf8, c1.rest);
    }
    CutBoth(|b|, m, r1, c1, r2, c2, ActorId(r1.value, r2.value));
  }

  lemma BodyCut(utf8: Utf8, tag: byte, b: Bytes, m: nat)
    requires m <= |b| && ReadBody(utf8, tag, b).Ok?
    ensures ReadBody(utf8, tag, b[..m]) == Cut(ReadBody(utf8, tag, b), |b|, m)
  {
    var first := ReadActor(utf8, b);
    ActorCut(utf8, b, m);
    CutThen(first, ReadBody(utf8, tag, b), |b|, m);
    if |b| - |first.rest| <= m {
      PayloadCut(tag, first.value, first.rest, m - (|b| - |first.rest|));
    }
  }

  /** Parsing depends only on the bytes consumed: on a longer cut it gives the same operation, on a shorter
      one it reports truncation. */
  lemma OpCut(utf8: Utf8, b: Bytes, m: nat)
    requires m <= |b| && ReadOp(utf8, b).Ok?
    ensures ReadOp(utf8, b[..m]) == Cut(ReadOp(utf8, b), |b|, m)
  {
    var k := if m == 0 then 0 else m - 1;
    BodyCut(utf8, b[0], b[1..], k);
    TagCut(b, m, ReadBody(utf8, b[0], b[1..]), ReadBody(utf8, b[0], b[1..][..k]));
  }

  /** Every proper prefix of an encoding is rejected as truncated. */
  lemma ProperPrefixTruncated(utf8: Utf8, op: CrdtOp, m: nat)
    requires TextOk(utf8, op) && m < |ToBytes(op)|
    ensures ReadOp(utf8, ToBytes(op)[..m]) == Err(Truncated)
  {
    assert ToBytes(op) + [] == ToBytes(op);
    OpRoundTrip(utf8, op, []);
    OpCut(utf8, ToBytes(op), m);
  }

  /** No encoding is a prefix of another: operations can be told apart in a byte stream. */
  lemma EncodingIsPrefixFree(utf8: Utf8, a: CrdtOp, b: CrdtOp)
    requires TextOk(utf8, a) && TextOk(utf8, b) && ToBytes(a) <= ToBytes(b)
    ensures a == b
  {
    var m := |ToBytes(a)|;
    assert ToBytes(b)[..m] == ToBytes(a);
    assert ToBytes(a) + [] == ToBytes(a);
    OpRoundTrip(utf8, a, []);
    if m < |ToBytes(b)| {
      ProperPrefixTruncated(utf8, b, m);
    } else {
      OpRoundTrip(utf8, b, []);
      assert ToBytes(b) + [] == ToBytes(a);
    }
  }
}
