/** How deep the parser recurses: once per nesting level of a map operation, with no limit but the input's length. */
module CrdtDepth {
  import opened Bytes
  import opened CrdtCodec

  function MapDepth(op: MapOp): nat {
    match op
    case Update(_, nested) => 1 + NestedDepth(nested)
    case Remove(_) => 1
  }

  function NestedDepth(op: NestedOp): nat {
    match op
    case InnerMap(inner) => MapDepth(inner)
    case _ => 0
  }

  /** The nested calls of the map operation parser on `b`, whether or not it succeeds. */
  function Levels(b: Bytes): nat
    decreases |b|
  {
    1 + if b != [] && b[0] == 1 && ReadFieldKey(b[1..]).Ok? then InnerLevels(ReadFieldKey(b[1..]).rest) else 0
  }

  function InnerLevels(b: Bytes): nat
    decreases |b|
  {
    if b != [] && b[0] == 6 then Levels(b[1..]) else 0
  }

  /** A parsed operation nests as deep as the parser recursed. */
  lemma {:induction false} LevelsAreDepth(b: Bytes)
    requires ReadMapOp(b).Ok?
    ensures Levels(b) == MapDepth(ReadMapOp(b).value)
    decreases |b|
  {
    if b[0] == 1 {
      assert ReadUpdate(b[1..]).Ok?;
      var rest := ReadFieldKey(b[1..]).rest;
      if rest[0] == 6 {
        assert ReadInner(rest[1..]).Ok?;
        LevelsAreDepth(rest[1..]);
      }
    }
  }

  lemma FieldKeyTakes(b: Bytes)
    requires ReadFieldKey(b).Ok?
    ensures |ReadFieldKey(b).rest| + 9 <= |b|
  {
  }

  /** Every level after the first takes at least eleven bytes. */
  lemma {:induction false} LevelsBound(b: Bytes)
    ensures 11 * Levels(b) <= |b| + 11
    decreases |b|
  {
    if b != [] && b[0] == 1 && ReadFieldKey(b[1..]).Ok? {
      FieldKeyTakes(b[1..]);
      var rest := ReadFieldKey(b[1..]).rest;
      if rest != [] && rest[0] == 6 {
        LevelsBound(rest[1..]);
      }
    }
  }

  // ----- inputs that reach the bound

  /** `n` maps inside each other, all under `k`, around a removal. */
  function Deep(k: FieldKey, n: nat): MapOp {
    if n == 0 then Remove(k) else Update(k, InnerMap(Deep(k, n - 1)))
  }

  lemma {:induction false} DeepTakes(k: FieldKey, n: nat)
    requires k.name == []
    ensures MapDepth(Deep(k, n)) == n + 1 && |MapOpBytes(Deep(k, n))| == 11 * n + 10
  {
    if n > 0 {
      DeepTakes(k, n - 1);
    }
  }

  /** A nested update up to the inner operation. */
  function Opening(k: FieldKey): Bytes {
    [1] + (FieldKeyBytes(k) + [6])
  }

  function Repeated(head: Bytes, n: nat): Bytes {
    if n == 0 then [] else head + Repeated(head, n - 1)
  }

  lemma {:induction false} RepeatedTakes(head: Bytes, n: nat)
    ensures |Repeated(head, n)| == n * |head|
  {
    if n > 0 {
      RepeatedTakes(head, n - 1);
      assert n * |head| == (n - 1) * |head| + |head|;
    }
  }

  lemma OpeningSplits(k: FieldKey, inner: Bytes)
    ensures Opening(k) + inner == [1] + (FieldKeyBytes(k) + ([6] + inner))
  {
  }

  lemma LevelsInside(body: Bytes, rest: Bytes)
    requires ReadFieldKey(body).Ok? && ReadFieldKey(body).rest == [6] + rest
    ensures Levels([1] + body) == 1 + Levels(rest)
  {
    assert ([1] + body)[1..] == body && ([6] + rest)[1..] == rest;
    assert InnerLevels([6] + rest) == Levels(rest);
  }

  lemma OneMoreLevel(k: FieldKey, inner: Bytes)
    ensures Levels(Opening(k) + inner) == 1 + Levels(inner)
  {
    OpeningSplits(k, inner);
    FieldKeyBack(k, [6] + inner);
    LevelsInside(FieldKeyBytes(k) + ([6] + inner), inner);
  }

  lemma {:induction false} CountsUp(levels: Bytes -> nat, head: Bytes, n: nat)
    requires levels([]) == 1 && forall b :: levels(head + b) == 1 + levels(b)
    ensures levels(Repeated(head, n)) == n + 1
  {
    if n > 0 {
      CountsUp(levels, head, n - 1);
    }
  }

  /** For every depth there is an input that reaches the bound: 11 `n` bytes that open `n` maps and end. */
  lemma BoundReached(k: FieldKey, n: nat)
    requires k.name == []
    ensures |Repeated(Opening(k), n)| == 11 * n && Levels(Repeated(Opening(k), n)) == n + 1
  {
    RepeatedTakes(Opening(k), n);
    forall b ensures Levels(Opening(k) + b) == 1 + Levels(b) {
      OneMoreLevel(k, b);
    }
    CountsUp(Levels, Opening(k), n);
  }

  lemma MapTakes(actor: ActorId, op: MapOp)
    requires actor == ActorId([], [])
    ensures |ToBytes(Map(actor, [op]))| == 25 + |MapOpBytes(op)|
  {
    var ops := [op];
    assert ops[1..] == [];
    assert ManyBytes(MapOpBytes, ops) == MapOpBytes(op) + ManyBytes(MapOpBytes, ops[1..]);
  }

  /** For every depth there is a whole operation that is accepted and nests that deep, eleven bytes per level. */
  lemma DeepParses(utf8: Utf8, actor: ActorId, k: FieldKey, n: nat)
    requires utf8([]) && actor == ActorId([], []) && k.name == []
    ensures var op := Map(actor, [Deep(k, n)]);
      && ReadOp(utf8, ToBytes(op)) == Ok(op, []) && MapDepth(op.ops[0]) == n + 1 && |ToBytes(op)| == 11 * n + 35
  {
    DeepTakes(k, n);
    MapTakes(actor, Deep(k, n));
    ParsesAlone(utf8, Map(actor, [Deep(k, n)]));
  }

  lemma ParsesAlone(utf8: Utf8, op: CrdtOp)
    requires TextOk(utf8, op)
    ensures ReadOp(utf8, ToBytes(op)) == Ok(op, [])
  {
    OpRoundTrip(utf8, op, []);
    assert ToBytes(op) + [] == ToBytes(op);
  }
}
