/** Merkle Search Tree: nodes, digests, and the canonical build from a sorted key set. */
module MstTree {
  import opened Bytes
  import opened Digests

  /** `Empty` is a missing child; a node keeps the digest computed when it was built. */
  datatype Tree = Empty | Node(keys: seq<Pair>, children: seq<Tree>, hash: Digest)

  function HashOf(t: Tree): Digest {
    if t.Empty? then ZERO_HASH else t.hash
  }

  // ----- contents

  /** The pairs under a node in ascending key order: child, key, child, key, ..., child. */
  function Collect(t: Tree): seq<Pair>
    decreases t, 1
  {
    if t.Empty? then [] else Weave(t.keys, t.children)
  }

  function Weave(keys: seq<Pair>, children: seq<Tree>): seq<Pair>
    decreases children, 0
  {
    if children == [] then []
    else if keys == [] then Collect(children[0])
    else Collect(children[0]) + [keys[0]] + Weave(keys[1..], children[1..])
  }

  /** The number of keys in a subtree. */
  function CountNode(t: Tree): nat
    decreases t, 1
  {
    if t.Empty? then 0 else |t.keys| + CountChildren(t.children)
  }

  function CountChildren(children: seq<Tree>): nat
    decreases children, 0
  {
    if children == [] then 0 else CountNode(children[0]) + CountChildren(children[1..])
  }

  /** Counting keys node by node agrees with listing them. */
  lemma {:induction false} CountIsLength(h: Hasher, t: Tree)
    requires Wf(h, t)
    ensures CountNode(t) == |Collect(t)|
    decreases t, 1
  {
    if t.Node? {
      CountIsLengthAll(h, t.keys, t.children);
    }
  }

  lemma {:induction false} CountIsLengthAll(h: Hasher, keys: seq<Pair>, children: seq<Tree>)
    requires |children| == |keys| + 1
    requires forall i :: 0 <= i < |children| ==> Wf(h, children[i])
    ensures |keys| + CountChildren(children) == |Weave(keys, children)|
    decreases children, 0
  {
    CountIsLength(h, children[0]);
    if keys != [] {
      CountIsLengthAll(h, keys[1..], children[1..]);
    }
  }

  // ----- digests

  const NODE_TAG: Bytes := [109, 115, 116, 45, 110, 111, 100, 101, 0]

  function ChildBytes(children: seq<Tree>): Bytes {
    if children == [] then [] else HashOf(children[0]) + ChildBytes(children[1..])
  }

  /** What a node's digest is taken over. */
  function Preimage(keys: seq<Pair>, children: seq<Tree>): Bytes {
    NODE_TAG + U64BE(|keys|) + KeyBytes(keys) + ChildBytes(children)
  }

  lemma {:induction false} ChildLayout(children: seq<Tree>, hashes: seq<Bytes>)
    requires |hashes| == |children|
    requires forall i :: 0 <= i < |children| ==>
      hashes[i] == if children[i].Empty? then Zeros(32) else children[i].hash
    ensures ChildBytes(children) == Flat(hashes)
  {
    if children != [] {
      FlatFirst(hashes);
      ChildLayout(children[1..], hashes[1..]);
    }
  }

  /** A node's digest is taken over `mst-node` and a zero byte, the number of keys, the pairs in order, and the digests
      of the children in order, zeros for a missing one. */
  lemma PreimageLayout(keys: seq<Pair>, children: seq<Tree>, parts: seq<Bytes>, hashes: seq<Bytes>)
    requires |parts| == |keys| && |hashes| == |children|
    requires forall i :: 0 <= i < |keys| ==> parts[i] == U64BE(|keys[i].0|) + keys[i].0 + keys[i].1
    requires forall i :: 0 <= i < |children| ==>
      hashes[i] == if children[i].Empty? then Zeros(32) else children[i].hash
    ensures Preimage(keys, children) ==
      [109, 115, 116, 45, 110, 111, 100, 101, 0] + U64BE(|keys|) + Flat(parts) + Flat(hashes)
  {
    PairLayout(keys, parts);
    ChildLayout(children, hashes);
  }

  /** Every node has a key, one more child than keys, lengths that fit a u64, and an up-to-date digest. */
  ghost predicate Wf(h: Hasher, t: Tree) {
    t.Node? ==>
      && |t.keys| >= 1
      && |t.children| == |t.keys| + 1
      && SmallKeys(t.keys)
      && t.hash == h(Preimage(t.keys, t.children))
      && forall i :: 0 <= i < |t.children| ==> Wf(h, t.children[i])
  }

  ghost predicate HasPreimage(t: Tree, p: Bytes) {
    t.Node? && (p == Preimage(t.keys, t.children)
                || exists i :: 0 <= i < |t.children| && HasPreimage(t.children[i], p))
  }

  /** Two nodes of these two trees defeat the hash function: distinct preimages with one digest,
      or a node that digests to the value reserved for a missing child. */
  ghost predicate Collides(h: Hasher, a: Tree, b: Tree) {
    || (exists p, q :: HasPreimage(a, p) && HasPreimage(b, q) && p != q && h(p) == h(q))
    || (exists p :: HasPreimage(a, p) && h(p) == ZERO_HASH)
    || (exists p :: HasPreimage(b, p) && h(p) == ZERO_HASH)
  }

  lemma CollidesUp(h: Hasher, a: Tree, b: Tree, i: nat, j: nat)
    requires a.Node? && b.Node? && i < |a.children| && j < |b.children|
    requires Collides(h, a.children[i], b.children[j])
    ensures Collides(h, a, b)
  {
    assert forall p :: HasPreimage(a.children[i], p) ==> HasPreimage(a, p);
    assert forall p :: HasPreimage(b.children[j], p) ==> HasPreimage(b, p);
  }

  /** A node preimage can be parsed back: it determines the keys and the child digests. */
  lemma PreimageParses(ka: seq<Pair>, ca: seq<Tree>, kb: seq<Pair>, cb: seq<Tree>)
    requires SmallKeys(ka) && SmallKeys(kb)
    requires |ca| == |ka| + 1 && |cb| == |kb| + 1
    requires Preimage(ka, ca) == Preimage(kb, cb)
    ensures ka == kb
    ensures forall i :: 0 <= i < |ca| ==> HashOf(ca[i]) == HashOf(cb[i])
  {
    var restA, restB := KeyBytes(ka) + ChildBytes(ca), KeyBytes(kb) + ChildBytes(cb);
    Regroup(NODE_TAG, U64BE(|ka|), KeyBytes(ka), ChildBytes(ca));
    Regroup(NODE_TAG, U64BE(|kb|), KeyBytes(kb), ChildBytes(cb));
    SplitEqual(NODE_TAG, U64BE(|ka|) + restA, NODE_TAG, U64BE(|kb|) + restB);
    SplitEqual(U64BE(|ka|), restA, U64BE(|kb|), restB);
    U64Injective(|ka|, |kb|);
    KeyBytesParse(ka, ChildBytes(ca), kb, ChildBytes(cb));
    ChildBytesParse(ca, cb);
  }

  lemma {:induction false} KeyBytesParse(ka: seq<Pair>, x: Bytes, kb: seq<Pair>, y: Bytes)
    requires SmallKeys(ka) && SmallKeys(kb) && |ka| == |kb|
    requires KeyBytes(ka) + x == KeyBytes(kb) + y
    ensures ka == kb && x == y
  {
    if ka != [] {
      var a, b := ka[0], kb[0];
      var restA, restB := KeyBytes(ka[1..]), KeyBytes(kb[1..]);
      Regroup(U64BE(|a.0|), a.0, a.1, restA);
      Regroup(U64BE(|b.0|), b.0, b.1, restB);
      KeyParse(U64BE(|a.0|), a, restA, x, U64BE(|b.0|), b, restB, y);
      U64Injective(|a.0|, |b.0|);
      KeyParseRest(a, restA + x, b, restB + y);
      KeyBytesParse(ka[1..], x, kb[1..], y);
      assert ka == [a] + ka[1..] && kb == [b] + kb[1..];
    } else {
      assert KeyBytes(ka) + x == x && KeyBytes(kb) + y == y;
    }
  }

  lemma KeyParse(la: Bytes, a: Pair, restA: Bytes, x: Bytes, lb: Bytes, b: Pair, restB: Bytes, y: Bytes)
    requires |la| == |lb|
    requires (la + (a.0 + (a.1 + restA))) + x == (lb + (b.0 + (b.1 + restB))) + y
    ensures la == lb
    ensures a.0 + (a.1 + (restA + x)) == b.0 + (b.1 + (restB + y))
  {
    var ta, tb := a.0 + (a.1 + (restA + x)), b.0 + (b.1 + (restB + y));
    assert (la + (a.0 + (a.1 + restA))) + x == la + ta;
    assert (lb + (b.0 + (b.1 + restB))) + y == lb + tb;
    SplitEqual(la, ta, lb, tb);
  }

  lemma {:induction false} ChildBytesParse(ca: seq<Tree>, cb: seq<Tree>)
    requires |ca| == |cb| && ChildBytes(ca) == ChildBytes(cb)
    ensures forall i :: 0 <= i < |ca| ==> HashOf(ca[i]) == HashOf(cb[i])
  {
    if ca != [] {
      SplitEqual(HashOf(ca[0]), ChildBytes(ca[1..]), HashOf(cb[0]), ChildBytes(cb[1..]));
      ChildBytesParse(ca[1..], cb[1..]);
      forall i | 0 <= i < |ca| ensures HashOf(ca[i]) == HashOf(cb[i]) {
        if i > 0 {
          assert ca[i] == ca[1..][i - 1] && cb[i] == cb[1..][i - 1];
        }
      }
    }
  }

  /** Subtrees with equal digests are equal subtrees, or two of their nodes collide. */
  lemma {:induction false} EqualDigests(h: Hasher, a: Tree, b: Tree)
    requires Wf(h, a) && Wf(h, b)
    requires HashOf(a) == HashOf(b)
    ensures a == b || Collides(h, a, b)
    decreases a
  {
    if a.Node? && b.Node? {
      var p, q := Preimage(a.keys, a.children), Preimage(b.keys, b.children);
      assert HasPreimage(a, p) && HasPreimage(b, q);
      if p == q {
        PreimageParses(a.keys, a.children, b.keys, b.children);
        if !Collides(h, a, b) {
          forall i | 0 <= i < |a.children| ensures a.children[i] == b.children[i] {
            EqualDigests(h, a.children[i], b.children[i]);
            if Collides(h, a.children[i], b.children[i]) {
              CollidesUp(h, a, b, i, i);
            }
          }
          assert a.children == b.children;
        }
      }
    } else if a.Node? {
      assert HasPreimage(a, Preimage(a.keys, a.children));
    } else if b.Node? {
      assert HasPreimage(b, Preimage(b.keys, b.children));
    }
  }
}
