/** Building a Merkle Search Tree bottom-up from a sorted, levelled key set. */
module MstBuild {
  import opened Bytes
  import opened Digests
  import opened MstTree

  /** A key's level is a function of the key (and of the branching base, fixed here). */
  type Leveler = Bytes -> nat

  datatype Leveled = Leveled(key: Bytes, value: Digest, level: nat)

  function Pairs(items: seq<Leveled>): (ps: seq<Pair>)
    ensures |ps| == |items|
    ensures forall i :: 0 <= i < |items| ==> ps[i] == (items[i].key, items[i].value)
  {
    seq(|items|, i requires 0 <= i < |items| => (items[i].key, items[i].value))
  }

  function LevelAll(level: Leveler, ps: seq<Pair>): (items: seq<Leveled>)
    ensures |items| == |ps|
    ensures forall i :: 0 <= i < |ps| ==> items[i] == Leveled(ps[i].0, ps[i].1, level(ps[i].0))
  {
    seq(|ps|, i requires 0 <= i < |ps| => Leveled(ps[i].0, ps[i].1, level(ps[i].0)))
  }

  predicate Below(items: seq<Leveled>, bound: int) {
    forall i :: 0 <= i < |items| ==> items[i].level <= bound
  }

  /** Index of the first item at exactly `level`, or the length when there is none. */
  function FirstPivot(items: seq<Leveled>, level: nat): (p: nat)
    ensures p <= |items|
    ensures p < |items| ==> items[p].level == level
    ensures forall i :: 0 <= i < p ==> items[i].level != level
  {
    if items == [] || items[0].level == level then 0 else 1 + FirstPivot(items[1..], level)
  }

  // ----- the tree over a levelled range

  /** The subtree over `items` whose keys all sit at or below `level`. */
  function TreeAt(h: Hasher, items: seq<Leveled>, level: nat): Tree
    requires Below(items, level)
    decreases level, |items|, 2
  {
    if items == [] then Empty
    else if FirstPivot(items, level) == |items| then
      assert items[0].level < level;
      TreeAt(h, items, level - 1)
    else
      var keys, children := PivotKeys(items, level), PivotChildren(h, items, level);
      Node(keys, children, h(Preimage(keys, children)))
  }

  function PivotKeys(items: seq<Leveled>, level: nat): seq<Pair>
    decreases |items|
  {
    var p := FirstPivot(items, level);
    if p == |items| then []
    else [(items[p].key, items[p].value)] + PivotKeys(items[p + 1..], level)
  }

  function PivotChildren(h: Hasher, items: seq<Leveled>, level: nat): (cs: seq<Tree>)
    requires Below(items, level)
    ensures |cs| == |PivotKeys(items, level)| + 1
    decreases level, |items|, 1
  {
    var p := FirstPivot(items, level);
    if p == |items| then [ChildTree(h, items, level)]
    else [ChildTree(h, items[..p], level)] + PivotChildren(h, items[p + 1..], level)
  }

  /** The child over a range between two pivots; at level 0 there is no lower level. */
  function ChildTree(h: Hasher, range: seq<Leveled>, level: nat): Tree
    requires Below(range, level - 1)
    decreases level, |range|, 0
  {
    if range == [] || level == 0 then Empty else TreeAt(h, range, level - 1)
  }

  // ----- what a well-levelled tree is

  /** All keys of a node share one level, at most `bound`, and every child sits strictly lower. */
  ghost predicate Layered(level: Leveler, t: Tree, bound: int)
    decreases t
  {
    t.Node? ==>
      && |t.keys| >= 1
      && |t.children| == |t.keys| + 1
      && var l := level(t.keys[0].0);
      && l <= bound
      && (forall i :: 0 <= i < |t.keys| ==> level(t.keys[i].0) == l)
      && (forall i :: 0 <= i < |t.children| ==> Layered(level, t.children[i], l - 1))
  }

  ghost predicate LevelsAgree(level: Leveler, items: seq<Leveled>) {
    forall i :: 0 <= i < |items| ==> items[i].level == level(items[i].key)
  }

  predicate SmallItems(items: seq<Leveled>) {
    |items| < U64 && forall i :: 0 <= i < |items| ==> |items[i].key| < U64
  }

  /** `t` is a sound tree over exactly `items`. */
  ghost predicate TreeOf(h: Hasher, level: Leveler, t: Tree, bound: int, items: seq<Leveled>) {
    Wf(h, t) && Layered(level, t, bound) && Collect(t) == Pairs(items)
  }

  /** `keys` and `children` are the sound contents of a level-`l` node over exactly `items`. */
  ghost predicate PivotsOf(h: Hasher, level: Leveler, keys: seq<Pair>, children: seq<Tree>,
                           l: nat, items: seq<Leveled>) {
    && |children| == |keys| + 1 && |keys| <= |items|
    && Weave(keys, children) == Pairs(items)
    && (forall i :: 0 <= i < |keys| ==> level(keys[i].0) == l && |keys[i].0| < U64)
    && (forall i :: 0 <= i < |children| ==> Wf(h, children[i]) && Layered(level, children[i], l - 1))
  }

  /** The build drops nothing, duplicates nothing, keeps the order, and every node is well formed
      with its children on strictly lower levels. */
  lemma {:induction false} TreeAtSound(h: Hasher, level: Leveler, items: seq<Leveled>, l: nat)
    requires Below(items, l) && LevelsAgree(level, items) && SmallItems(items)
    ensures TreeOf(h, level, TreeAt(h, items, l), l, items)
    decreases l, |items|, 2
  {
    if items != [] {
      if FirstPivot(items, l) == |items| {
        assert items[0].level < l;
        TreeAtSound(h, level, items, l - 1);
        LayeredLoosen(level, TreeAt(h, items, l - 1), l - 1, l);
      } else {
        PivotsSound(h, level, items, l);
        NodeSound(h, level, PivotKeys(items, l), PivotChildren(h, items, l), l, items);
      }
    }
  }

  lemma NodeSound(h: Hasher, level: Leveler, keys: seq<Pair>, children: seq<Tree>, l: nat, items: seq<Leveled>)
    requires PivotsOf(h, level, keys, children, l, items) && keys != [] && |items| < U64
    ensures TreeOf(h, level, Node(keys, children, h(Preimage(keys, children))), l, items)
  {
  }

  lemma {:induction false} PivotsSound(h: Hasher, level: Leveler, items: seq<Leveled>, l: nat)
    requires Below(items, l) && LevelsAgree(level, items) && SmallItems(items)
    ensures PivotsOf(h, level, PivotKeys(items, l), PivotChildren(h, items, l), l, items)
    decreases l, |items|, 1
  {
    var p := FirstPivot(items, l);
    if p == |items| {
      ChildSound(h, level, items, l);
    } else {
      var child := ChildTree(h, items[..p], l);
      ChildSound(h, level, items[..p], l);
      PivotsSound(h, level, items[p + 1..], l);
      PivotsPrepend(h, level, items, p, child, PivotKeys(items[p + 1..], l), PivotChildren(h, items[p + 1..], l), l);
    }
  }

  lemma PivotsPrepend(h: Hasher, level: Leveler, items: seq<Leveled>, p: nat, child: Tree,
                      keys: seq<Pair>, children: seq<Tree>, l: nat)
    requires p < |items| && |items[p].key| < U64 && level(items[p].key) == l
    requires TreeOf(h, level, child, l - 1, items[..p])
    requires PivotsOf(h, level, keys, children, l, items[p + 1..])
    ensures PivotsOf(h, level, [(items[p].key, items[p].value)] + keys, [child] + children, l, items)
  {
    var keys', children' := [(items[p].key, items[p].value)] + keys, [child] + children;
    assert keys'[1..] == keys && children'[1..] == children;
    assert Pairs(items) == Pairs(items[..p]) + [keys'[0]] + Pairs(items[p + 1..]);
  }

  lemma {:induction false} ChildSound(h: Hasher, level: Leveler, range: seq<Leveled>, l: nat)
    requires Below(range, l - 1) && LevelsAgree(level, range) && SmallItems(range)
    ensures TreeOf(h, level, ChildTree(h, range, l), l - 1, range)
    decreases l, |range|, 0
  {
    if range != [] {
      assert range[0].level <= l - 1;
      TreeAtSound(h, level, range, l - 1);
    }
  }

  lemma LayeredLoosen(level: Leveler, t: Tree, a: int, b: int)
    requires Layered(level, t, a) && a <= b
    ensures Layered(level, t, b)
  {
  }

  // ----- a sound tree is the one the build gives: its shape is a function of its contents

  lemma {:induction false} CollectBelow(level: Leveler, t: Tree, bound: int)
    requires Layered(level, t, bound)
    ensures Below(LevelAll(level, Collect(t)), bound)
    decreases t, 1
  {
    if t.Node? {
      WeaveBelow(level, t.keys, t.children, level(t.keys[0].0));
    }
  }

  lemma {:induction false} WeaveBelow(level: Leveler, keys: seq<Pair>, children: seq<Tree>, l: int)
    requires |children| == |keys| + 1
    requires forall i :: 0 <= i < |keys| ==> level(keys[i].0) == l
    requires forall i :: 0 <= i < |children| ==> Layered(level, children[i], l - 1)
    ensures Below(LevelAll(level, Weave(keys, children)), l)
    decreases children, 0
  {
    CollectBelow(level, children[0], l - 1);
    if keys != [] {
      WeaveBelow(level, keys[1..], children[1..], l);
      WeaveItems(level, keys, children);
      BelowJoined(LevelAll(level, Collect(children[0])), Leveled(keys[0].0, keys[0].1, level(keys[0].0)),
                  LevelAll(level, Weave(keys[1..], children[1..])), l);
    }
  }

  lemma BelowJoined(first: seq<Leveled>, pivot: Leveled, rest: seq<Leveled>, l: int)
    requires Below(first, l - 1) && pivot.level == l && Below(rest, l)
    ensures Below(first + [pivot] + rest, l)
  {
  }

  lemma WeaveItems(level: Leveler, keys: seq<Pair>, children: seq<Tree>)
    requires |children| == |keys| + 1 && keys != []
    ensures LevelAll(level, Weave(keys, children))
         == LevelAll(level, Collect(children[0]))
          + [Leveled(keys[0].0, keys[0].1, level(keys[0].0))]
          + LevelAll(level, Weave(keys[1..], children[1..]))
  {
  }

  lemma {:induction false} FirstPivotIs(items: seq<Leveled>, l: nat, p: nat)
    requires p <= |items|
    requires forall i :: 0 <= i < p ==> items[i].level != l
    requires p < |items| ==> items[p].level == l
    ensures FirstPivot(items, l) == p
  {
  }

  lemma TreeAtDescend(h: Hasher, items: seq<Leveled>, l: nat, high: nat)
    requires Below(items, l) && l <= high
    ensures Below(items, high) && TreeAt(h, items, high) == TreeAt(h, items, l)
  {
    var tree := (i: nat) => if Below(items, i) then TreeAt(h, items, i) else Empty;
    forall i: nat | l < i <= high ensures tree(i) == tree(i - 1) {
      TreeAtLower(h, items, i);
    }
    Unchanging(tree, l, high);
  }

  lemma {:induction false} Unchanging(f: nat -> Tree, l: nat, high: nat)
    requires l <= high && forall i: nat :: l < i <= high ==> f(i) == f(i - 1)
    ensures f(high) == f(l)
    decreases high
  {
    if l < high {
      Unchanging(f, l, high - 1);
    }
  }

  /** A level on which no item sits adds no node. */
  lemma {:induction false} TreeAtLower(h: Hasher, items: seq<Leveled>, l: nat)
    requires l > 0 && Below(items, l - 1)
    ensures Below(items, l) && TreeAt(h, items, l) == TreeAt(h, items, l - 1)
  {
    if items != [] {
      FirstPivotIs(items, l, |items|);
    }
  }

  /** Any sound tree equals the tree the build produces from its own contents. */
  lemma {:induction false} Rebuild(h: Hasher, level: Leveler, t: Tree, bound: nat)
    requires Wf(h, t) && Layered(level, t, bound)
    ensures Below(LevelAll(level, Collect(t)), bound)
    ensures TreeAt(h, LevelAll(level, Collect(t)), bound) == t
    decreases t, 1
  {
    CollectBelow(level, t, bound);
    if t.Node? {
      var l := level(t.keys[0].0);
      var items := LevelAll(level, Collect(t));
      WeaveBelow(level, t.keys, t.children, l);
      RebuildPivots(h, level, t.keys, t.children, l);
      TreeAtDescend(h, items, l, bound);
      assert PivotKeys(items, l) == t.keys && PivotChildren(h, items, l) == t.children;
      assert FirstPivot(items, l) < |items|;
    }
  }

  /** Keys on level `l` woven with sound children below it. */
  ghost predicate Interleaved(h: Hasher, level: Leveler, keys: seq<Pair>, children: seq<Tree>, l: int) {
    && |children| == |keys| + 1
    && (forall i :: 0 <= i < |keys| ==> level(keys[i].0) == l)
    && (forall i :: 0 <= i < |children| ==> Wf(h, children[i]) && Layered(level, children[i], l - 1))
  }

  lemma {:induction false} RebuildPivots(h: Hasher, level: Leveler, keys: seq<Pair>, children: seq<Tree>, l: nat)
    requires Interleaved(h, level, keys, children, l)
    ensures Below(LevelAll(level, Weave(keys, children)), l)
    ensures PivotKeys(LevelAll(level, Weave(keys, children)), l) == keys
    ensures PivotChildren(h, LevelAll(level, Weave(keys, children)), l) == children
    decreases children, 0
  {
    WeaveBelow(level, keys, children, l);
    RebuildChild(h, level, children[0], l);
    if keys != [] {
      RebuildPivots(h, level, keys[1..], children[1..], l);
      RebuildFirst(h, level, keys, children, l);
      HeadTail(keys);
      HeadTail(children);
    }
  }

  lemma RebuildFirst(h: Hasher, level: Leveler, keys: seq<Pair>, children: seq<Tree>, l: nat)
    requires Interleaved(h, level, keys, children, l) && keys != []
    requires Below(LevelAll(level, Weave(keys, children)), l)
    requires Below(LevelAll(level, Weave(keys[1..], children[1..])), l)
    ensures Below(LevelAll(level, Collect(children[0])), l - 1)
    ensures PivotKeys(LevelAll(level, Weave(keys, children)), l)
         == [keys[0]] + PivotKeys(LevelAll(level, Weave(keys[1..], children[1..])), l)
    ensures PivotChildren(h, LevelAll(level, Weave(keys, children)), l)
         == [ChildTree(h, LevelAll(level, Collect(children[0])), l)]
          + PivotChildren(h, LevelAll(level, Weave(keys[1..], children[1..])), l)
  {
    WeaveItems(level, keys, children);
    CollectBelow(level, children[0], l - 1);
    PivotsAfter(h, LevelAll(level, Collect(children[0])), Leveled(keys[0].0, keys[0].1, level(keys[0].0)),
                LevelAll(level, Weave(keys[1..], children[1..])), l);
  }

  lemma HeadTail<T>(s: seq<T>)
    requires s != []
    ensures [s[0]] + s[1..] == s
  {
  }

  lemma PivotsAfter(h: Hasher, first: seq<Leveled>, pivot: Leveled, rest: seq<Leveled>, l: nat)
    requires Below(first, l - 1) && pivot.level == l && Below(rest, l)
    ensures Below(first + [pivot] + rest, l)
    ensures PivotKeys(first + [pivot] + rest, l) == [(pivot.key, pivot.value)] + PivotKeys(rest, l)
    ensures PivotChildren(h, first + [pivot] + rest, l) == [ChildTree(h, first, l)] + PivotChildren(h, rest, l)
  {
    FirstPivotAfter(first, pivot, rest, l);
  }

  lemma FirstPivotAfter(first: seq<Leveled>, pivot: Leveled, rest: seq<Leveled>, l: nat)
    requires Below(first, l - 1) && pivot.level == l
    ensures FirstPivot(first + [pivot] + rest, l) == |first|
    ensures (first + [pivot] + rest)[..|first|] == first
    ensures (first + [pivot] + rest)[|first|] == pivot
    ensures (first + [pivot] + rest)[|first| + 1..] == rest
  {
    var items := first + [pivot] + rest;
    assert forall i :: 0 <= i < |first| ==> items[i] == first[i];
    FirstPivotIs(items, l, |first|);
  }

  lemma {:induction false} RebuildChild(h: Hasher, level: Leveler, child: Tree, l: nat)
    requires Wf(h, child) && Layered(level, child, l - 1)
    ensures Below(LevelAll(level, Collect(child)), l - 1)
    ensures ChildTree(h, LevelAll(level, Collect(child)), l) == child
    decreases child, 2
  {
    CollectBelow(level, child, l - 1);
    if child.Node? {
      NodeAboveZero(h, level, child, l);
      Rebuild(h, level, child, l - 1);
      ChildTreeIs(h, LevelAll(level, Collect(child)), l);
    } else {
      assert LevelAll(level, Collect(child)) == [];
    }
  }

  lemma NodeAboveZero(h: Hasher, level: Leveler, t: Tree, l: nat)
    requires Wf(h, t) && Layered(level, t, l - 1) && t.Node?
    ensures l > 0
  {
    assert level(t.keys[0].0) <= l - 1;
  }

  lemma ChildTreeIs(h: Hasher, items: seq<Leveled>, l: nat)
    requires l > 0 && Below(items, l - 1)
    ensures ChildTree(h, items, l) == TreeAt(h, items, l - 1)
  {
  }

  // ----- the builder as the source runs it

  /** Builds the node for a levelled range by listing its pivots and walking the gaps between them. */
  method BuildAt(h: Hasher, items: seq<Leveled>, level: nat) returns (t: Tree)
    requires Below(items, level)
    ensures t == TreeAt(h, items, level)
    decreases level, 2
  {
    if items == [] {
      return Empty;
    }
    var pivots := ListPivots(items, level);
    assert PivotFree(items, GapStart(pivots, 0), GapEnd(|items|, pivots, 0), level);
    if pivots == [] {
      FirstPivotIs(items, level, |items|);
      assert items[0].level < level;
      t := BuildAt(h, items, level - 1);
      return;
    }
    var keys, children := FillNode(h, items, level, pivots);
    t := Node(keys, children, h(Preimage(keys, children)));
  }

  method ListPivots(items: seq<Leveled>, level: nat) returns (pivots: seq<nat>)
    ensures PivotList(items, level, pivots)
  {
    pivots := [];
    for i := 0 to |items|
      invariant PivotList(items[..i], level, pivots)
    {
      PivotListGrow(items[..i], items[i], level, pivots);
      assert items[..i] + [items[i]] == items[..i + 1];
      if items[i].level == level {
        pivots := pivots + [i];
      }
    }
    assert items[..|items|] == items;
  }

  function GapStart(pivots: seq<nat>, k: nat): nat
    requires k <= |pivots|
  {
    if k == 0 then 0 else pivots[k - 1] + 1
  }

  function GapEnd(n: nat, pivots: seq<nat>, k: nat): nat {
    if k < |pivots| then pivots[k] else n
  }

  ghost predicate PivotFree(items: seq<Leveled>, lo: nat, hi: nat, level: nat) {
    lo <= hi <= |items| && forall i :: lo <= i < hi ==> items[i].level != level
  }

  /** `pivots` lists, in order, exactly the indices of the items at `level`. */
  ghost predicate PivotList(items: seq<Leveled>, level: nat, pivots: seq<nat>) {
    && (forall k :: 0 <= k < |pivots| ==> pivots[k] < |items| && items[pivots[k]].level == level)
    && (forall k :: 0 <= k <= |pivots| ==>
          PivotFree(items, GapStart(pivots, k), GapEnd(|items|, pivots, k), level))
  }

  lemma PivotListGrow(items: seq<Leveled>, x: Leveled, level: nat, pivots: seq<nat>)
    requires PivotList(items, level, pivots)
    ensures PivotList(items + [x], level, if x.level == level then pivots + [|items|] else pivots)
  {
    var items', pivots' := items + [x], if x.level == level then pivots + [|items|] else pivots;
    forall k | 0 <= k <= |pivots'|
      ensures PivotFree(items', GapStart(pivots', k), GapEnd(|items'|, pivots', k), level)
    {
      if k <= |pivots| {
        assert PivotFree(items, GapStart(pivots, k), GapEnd(|items|, pivots, k), level);
      }
    }
  }

  /** The keys and children of a node, gap by gap. */
  method FillNode(h: Hasher, items: seq<Leveled>, level: nat, pivots: seq<nat>)
    returns (keys: seq<Pair>, children: seq<Tree>)
    requires Below(items, level) && PivotList(items, level, pivots) && pivots != []
    ensures keys == PivotKeys(items, level) && keys != []
    ensures children == PivotChildren(h, items, level)
    decreases level, 1
  {
    GapLow(items, level, pivots, 0);
    keys := [];
    var first := ChildBelow(h, items[0..pivots[0]], level);
    children := [first];
    for i := 0 to |pivots|
      invariant |keys| == i && |children| == i + 1
      invariant forall k :: 0 <= k < i ==> IsPivot(items, pivots, k, keys[k])
      invariant forall k :: 0 <= k <= i ==> IsChild(h, items, level, pivots, k, children[k])
    {
      GapLow(items, level, pivots, i + 1);
      keys := keys + [(items[pivots[i]].key, items[pivots[i]].value)];
      var child := ChildBelow(h, items[pivots[i] + 1..GapEnd(|items|, pivots, i + 1)], level);
      children := children + [child];
    }
    forall k | 0 <= k <= |pivots| ensures ListedAt(h, items, level, pivots, keys, children, k) {
      assert IsChild(h, items, level, pivots, k, children[k]);
      assert k < |pivots| ==> IsPivot(items, pivots, k, keys[k]);
    }
    PivotsListed(h, items, level, pivots, keys, children, 0);
    assert items[0..] == items && keys[0..] == keys && children[0..] == children;
  }

  predicate IsPivot(items: seq<Leveled>, pivots: seq<nat>, k: nat, pair: Pair) {
    k < |pivots| && pivots[k] < |items| && pair == (items[pivots[k]].key, items[pivots[k]].value)
  }

  /** `child` is the tree over the gap before pivot `k` (or after the last one). */
  ghost predicate IsChild(h: Hasher, items: seq<Leveled>, level: nat, pivots: seq<nat>, k: nat, child: Tree) {
    && k <= |pivots| && GapStart(pivots, k) <= GapEnd(|items|, pivots, k) <= |items|
    && Below(items[GapStart(pivots, k)..GapEnd(|items|, pivots, k)], level - 1)
    && child == ChildTree(h, items[GapStart(pivots, k)..GapEnd(|items|, pivots, k)], level)
  }

  lemma GapLow(items: seq<Leveled>, level: nat, pivots: seq<nat>, k: nat)
    requires Below(items, level) && PivotList(items, level, pivots) && k <= |pivots|
    ensures GapStart(pivots, k) <= GapEnd(|items|, pivots, k) <= |items|
    ensures Below(items[GapStart(pivots, k)..GapEnd(|items|, pivots, k)], level - 1)
  {
    assert PivotFree(items, GapStart(pivots, k), GapEnd(|items|, pivots, k), level);
  }

  ghost predicate Lists(h: Hasher, items: seq<Leveled>, level: nat, start: nat, keys: seq<Pair>, children: seq<Tree>) {
    && start <= |items| && Below(items[start..], level)
    && PivotKeys(items[start..], level) == keys && PivotChildren(h, items[start..], level) == children
  }

  /** Pivot `k` has its key, and the gap before it its child. */
  ghost predicate ListedAt(h: Hasher, items: seq<Leveled>, level: nat, pivots: seq<nat>,
                           keys: seq<Pair>, children: seq<Tree>, k: nat)
    requires |keys| == |pivots| && |children| == |keys| + 1 && k <= |pivots|
  {
    && IsChild(h, items, level, pivots, k, children[k])
    && (k < |pivots| ==> IsPivot(items, pivots, k, keys[k]) && items[pivots[k]].level == level)
  }

  /** Pivots, keys and gap children, listed by index. */
  ghost predicate Listed(h: Hasher, items: seq<Leveled>, level: nat, pivots: seq<nat>,
                         keys: seq<Pair>, children: seq<Tree>) {
    && |keys| == |pivots| && |children| == |keys| + 1
    && forall k {:trigger ListedAt(h, items, level, pivots, keys, children, k)} :: 0 <= k <= |pivots| ==>
         ListedAt(h, items, level, pivots, keys, children, k)
  }

  /** What is listed by index is what the recursive partition yields. */
  lemma {:induction false} PivotsListed(h: Hasher, items: seq<Leveled>, level: nat, pivots: seq<nat>,
                                        keys: seq<Pair>, children: seq<Tree>, k: nat)
    requires Below(items, level) && Listed(h, items, level, pivots, keys, children) && k <= |pivots|
    ensures Lists(h, items, level, GapStart(pivots, k), keys[k..], children[k..])
    decreases |pivots| - k
  {
    if k == |pivots| {
      PivotsListedEnd(h, items, level, pivots, keys, children);
    } else {
      PivotsListed(h, items, level, pivots, keys, children, k + 1);
      PivotsListedStep(h, items, level, pivots, keys, children, k);
    }
  }

  lemma PivotsListedEnd(h: Hasher, items: seq<Leveled>, level: nat, pivots: seq<nat>,
                        keys: seq<Pair>, children: seq<Tree>)
    requires Below(items, level) && Listed(h, items, level, pivots, keys, children)
    ensures Lists(h, items, level, GapStart(pivots, |pivots|), keys[|pivots|..], children[|pivots|..])
  {
    assert ListedAt(h, items, level, pivots, keys, children, |pivots|);
    PivotsEnd(h, items, level, GapStart(pivots, |pivots|));
  }

  lemma {:induction false} PivotsListedStep(h: Hasher, items: seq<Leveled>, level: nat, pivots: seq<nat>,
                         keys: seq<Pair>, children: seq<Tree>, k: nat)
    requires Below(items, level) && Listed(h, items, level, pivots, keys, children) && k < |pivots|
    requires Lists(h, items, level, GapStart(pivots, k + 1), keys[k + 1..], children[k + 1..])
    ensures Lists(h, items, level, GapStart(pivots, k), keys[k..], children[k..])
  {
    assert ListedAt(h, items, level, pivots, keys, children, k);
    var start, pivot := GapStart(pivots, k), pivots[k];
    assert GapEnd(|items|, pivots, k) == pivot && GapStart(pivots, k + 1) == pivot + 1;
    ListsStep(h, items, level, start, pivot, keys, children, k);
  }

  lemma {:induction false} ListsStep(h: Hasher, items: seq<Leveled>, level: nat, start: nat, pivot: nat,
                  keys: seq<Pair>, children: seq<Tree>, k: nat)
    requires Below(items, level) && start <= pivot < |items| && items[pivot].level == level
    requires Below(items[start..pivot], level - 1)
    requires k < |keys| && |children| == |keys| + 1
    requires keys[k] == (items[pivot].key, items[pivot].value)
    requires children[k] == ChildTree(h, items[start..pivot], level)
    requires Lists(h, items, level, pivot + 1, keys[k + 1..], children[k + 1..])
    ensures Lists(h, items, level, start, keys[k..], children[k..])
  {
    PivotStep(h, items, level, start, pivot);
    DropHead(keys, k);
    DropHead(children, k);
  }

  lemma DropHead<T>(s: seq<T>, k: nat)
    requires k < |s|
    ensures s[k..] == [s[k]] + s[k + 1..]
  {
  }

  /** Unfolds one pivot of the suffix from `start`. */
  lemma PivotStep(h: Hasher, items: seq<Leveled>, level: nat, start: nat, pivot: nat)
    requires Below(items, level) && start <= pivot < |items| && items[pivot].level == level
    requires Below(items[start..pivot], level - 1)
    ensures PivotKeys(items[start..], level)
         == [(items[pivot].key, items[pivot].value)] + PivotKeys(items[pivot + 1..], level)
    ensures PivotChildren(h, items[start..], level)
         == [ChildTree(h, items[start..pivot], level)] + PivotChildren(h, items[pivot + 1..], level)
  {
    var suffix := items[start..];
    assert suffix[..pivot - start] == items[start..pivot];
    assert forall i :: 0 <= i < pivot - start ==> suffix[i] == items[start..pivot][i];
    FirstPivotIs(suffix, level, pivot - start);
    assert suffix[pivot - start + 1..] == items[pivot + 1..];
  }

  lemma PivotsEnd(h: Hasher, items: seq<Leveled>, level: nat, start: nat)
    requires Below(items, level) && start <= |items|
    requires Below(items[start..|items|], level - 1)
    ensures PivotKeys(items[start..], level) == []
    ensures PivotChildren(h, items[start..], level) == [ChildTree(h, items[start..|items|], level)]
  {
    assert items[start..|items|] == items[start..];
    FirstPivotIs(items[start..], level, |items| - start);
  }

  method ChildBelow(h: Hasher, range: seq<Leveled>, level: nat) returns (t: Tree)
    requires Below(range, level - 1)
    ensures t == ChildTree(h, range, level)
    decreases level, 0
  {
    if range == [] || level == 0 {
      return Empty;
    }
    t := BuildAt(h, range, level - 1);
  }
}
