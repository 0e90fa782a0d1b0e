/** Cycle detection over the transaction dependency graph by depth-first search. */
module ElleGraph {
  import opened Collections

  type Txn = nat

  type Graph = map<Txn, set<Txn>>

  function Succ(g: Graph, u: Txn): set<Txn> {
    if u in g then g[u] else {}
  }

  ghost predicate IsPath(g: Graph, p: seq<Txn>) {
    forall i :: 0 <= i < |p| - 1 ==> p[i + 1] in Succ(g, p[i])
  }

  ghost predicate IsCycle(g: Graph, p: seq<Txn>) {
    |p| >= 2 && p[0] == p[|p| - 1] && IsPath(g, p)
  }

  ghost predicate HasCycle(g: Graph) {
    exists p :: IsCycle(g, p)
  }

  /** The sequence has every node that has or ends an edge, once each, with every edge leading forward. */
  ghost predicate IsSchedule(g: Graph, order: seq<Txn>) {
    && NoRepeats(order)
    && (forall u :: u in g ==> u in order)
    && Forward(g, order)
  }

  ghost predicate NoRepeats(s: seq<Txn>) {
    forall i, j :: 0 <= i < j < |s| ==> s[i] != s[j]
  }

  ghost predicate Before(order: seq<Txn>, u: Txn, v: Txn) {
    exists i, j :: 0 <= i < j < |order| && order[i] == u && order[j] == v
  }

  ghost predicate Forward(g: Graph, order: seq<Txn>) {
    forall u, v :: u in order && v in Succ(g, u) ==> Before(order, u, v)
  }

  /** A graph whose transactions can be put in order has no cycle. */
  lemma ScheduleExcludesCycle(g: Graph, order: seq<Txn>)
    requires IsSchedule(g, order)
    ensures !HasCycle(g)
  {
    forall p | IsPath(g, p) && |p| >= 2 ensures p[0] != p[|p| - 1] {
      PathMovesForward(g, order, p, |p| - 1);
    }
  }

  lemma {:induction false} PathMovesForward(g: Graph, order: seq<Txn>, p: seq<Txn>, n: nat)
    requires IsSchedule(g, order) && IsPath(g, p) && 1 <= n < |p|
    ensures Before(order, p[0], p[n]) && p[0] != p[n]
  {
    assert p[n] in Succ(g, p[n - 1]);
    if n == 1 {
      StepForward(g, order, p[0], p[1]);
    } else {
      PathMovesForward(g, order, p, n - 1);
      StepForward(g, order, p[n - 1], p[n]);
      BeforeTransitive(order, p[0], p[n - 1], p[n]);
    }
    BeforeDistinct(order, p[0], p[n]);
  }

  lemma StepForward(g: Graph, order: seq<Txn>, u: Txn, v: Txn)
    requires IsSchedule(g, order) && v in Succ(g, u)
    ensures Before(order, u, v)
  {
    assert u in g;
  }

  lemma BeforeTransitive(order: seq<Txn>, u: Txn, v: Txn, w: Txn)
    requires NoRepeats(order) && Before(order, u, v) && Before(order, v, w)
    ensures Before(order, u, w)
  {
    var i, j :| 0 <= i < j < |order| && order[i] == u && order[j] == v;
    var k, l :| 0 <= k < l < |order| && order[k] == v && order[l] == w;
    assert j == k;
  }

  lemma BeforeDistinct(order: seq<Txn>, u: Txn, v: Txn)
    requires NoRepeats(order) && Before(order, u, v)
    ensures u != v
  {
  }

  // ----- depth-first search

  datatype Color = Gray | Black

  function Nodes(g: Graph): set<Txn> {
    g.Keys + set u, v | u in g && v in g[u] :: v
  }

  ghost predicate Colored(color: map<Txn, Color>, c: Color, s: seq<Txn>) {
    forall u :: u in s <==> u in color && color[u] == c
  }

  /** Finished transactions: each after all of its successors. */
  ghost predicate Finished(g: Graph, done: seq<Txn>) {
    NoRepeats(done) && forall i :: 0 <= i < |done| ==> SuccEarlier(g, done, i)
  }

  ghost predicate SuccEarlier(g: Graph, done: seq<Txn>, i: nat)
    requires i < |done|
  {
    forall v :: v in Succ(g, done[i]) ==> v in done[..i]
  }

  lemma FinishedGrows(g: Graph, done: seq<Txn>, u: Txn)
    requires Finished(g, done) && u !in done && forall v :: v in Succ(g, u) ==> v in done
    ensures Finished(g, done + [u])
  {
    var done' := done + [u];
    forall i | 0 <= i < |done'| ensures SuccEarlier(g, done', i) {
      if i < |done| {
        assert SuccEarlier(g, done, i);
        assert done'[..i] == done[..i];
      } else {
        assert done'[..i] == done;
      }
    }
  }

  function Reverse(s: seq<Txn>): (r: seq<Txn>)
    ensures |r| == |s| && forall i :: 0 <= i < |s| ==> r[i] == s[|s| - 1 - i]
  {
    seq(|s|, i requires 0 <= i < |s| => s[|s| - 1 - i])
  }

  /** Once every transaction with an edge is finished, the finish order backwards is a schedule. */
  lemma FinishOrderIsSchedule(g: Graph, done: seq<Txn>)
    requires Finished(g, done) && forall u :: u in g ==> u in done
    ensures IsSchedule(g, Reverse(done))
  {
    var order := Reverse(done);
    forall u | u in done ensures u in order {
      var i :| 0 <= i < |done| && done[i] == u;
      assert order[|done| - 1 - i] == u;
    }
    forall u, v | u in order && v in Succ(g, u) ensures Before(order, u, v) {
      var k :| 0 <= k < |order| && order[k] == u;
      var i := |done| - 1 - k;
      assert done[i] == u && SuccEarlier(g, done, i);
      var j :| 0 <= j < i && done[j] == v;
      assert order[|done| - 1 - j] == v;
    }
  }

  /** The grey transactions are a path, the black ones are finished, and the rest are not yet seen. */
  ghost predicate Sound(g: Graph, color: map<Txn, Color>, stack: seq<Txn>, done: seq<Txn>) {
    && color.Keys <= Nodes(g)
    && Colored(color, Gray, stack)
    && Colored(color, Black, done)
    && NoRepeats(stack)
    && IsPath(g, stack)
    && Finished(g, done)
  }

  /** A transaction the search may go on to: unseen, and a successor of the last one on the stack. */
  ghost predicate Reachable(g: Graph, color: map<Txn, Color>, stack: seq<Txn>, u: Txn) {
    u in Nodes(g) && u !in color && (stack != [] ==> u in Succ(g, stack[|stack| - 1]))
  }

  lemma Enter(g: Graph, color: map<Txn, Color>, stack: seq<Txn>, done: seq<Txn>, u: Txn)
    requires Sound(g, color, stack, done) && Reachable(g, color, stack, u)
    ensures Sound(g, color[u := Gray], stack + [u], done)
    ensures |Nodes(g) - color[u := Gray].Keys| < |Nodes(g) - color.Keys|
  {
    assert Nodes(g) - color[u := Gray].Keys == (Nodes(g) - color.Keys) - {u};
    assert u !in stack;
    EnterColors(color, stack, done, u);
    EnterPath(g, stack, u);
  }

  lemma EnterColors(color: map<Txn, Color>, stack: seq<Txn>, done: seq<Txn>, u: Txn)
    requires u !in color && Colored(color, Gray, stack) && Colored(color, Black, done)
    ensures Colored(color[u := Gray], Gray, stack + [u]) && Colored(color[u := Gray], Black, done)
  {
    forall x ensures x in stack + [u] <==> x in stack || x == u {
    }
  }

  lemma EnterPath(g: Graph, stack: seq<Txn>, u: Txn)
    requires u !in stack && NoRepeats(stack) && IsPath(g, stack)
    requires stack != [] ==> u in Succ(g, stack[|stack| - 1])
    ensures NoRepeats(stack + [u]) && IsPath(g, stack + [u])
  {
  }

  lemma Leave(g: Graph, color: map<Txn, Color>, stack: seq<Txn>, done: seq<Txn>, u: Txn)
    requires Sound(g, color, stack + [u], done) && forall v :: v in Succ(g, u) ==> v in done
    ensures Sound(g, color[u := Black], stack, done + [u])
  {
    var whole := stack + [u];
    assert whole[|stack|] == u;
    assert u in whole;
    assert color[u] == Gray && u !in done;
    FinishedGrows(g, done, u);
    LeavePath(g, stack, u);
    LeaveColors(color, stack, done, u);
  }

  lemma LeavePath(g: Graph, stack: seq<Txn>, u: Txn)
    requires NoRepeats(stack + [u]) && IsPath(g, stack + [u])
    ensures NoRepeats(stack) && IsPath(g, stack) && u !in stack
  {
    var whole := stack + [u];
    assert forall i :: 0 <= i < |stack| ==> stack[i] == whole[i];
    assert whole[|stack|] == u;
  }

  lemma LeaveColors(color: map<Txn, Color>, stack: seq<Txn>, done: seq<Txn>, u: Txn)
    requires u !in stack && Colored(color, Gray, stack + [u]) && Colored(color, Black, done)
    ensures Colored(color[u := Black], Gray, stack) && Colored(color[u := Black], Black, done + [u])
  {
    forall x ensures x in stack <==> x in color && color[x] == Gray && x != u {
      assert x in stack + [u] <==> x in stack || x == u;
    }
  }

  /** The successors of `u` outside `todo` are finished. */
  ghost predicate Covered(g: Graph, u: Txn, todo: set<Txn>, done: seq<Txn>) {
    todo <= Succ(g, u) && forall v :: v in Succ(g, u) && v !in todo ==> v in done
  }

  lemma CoverNext(g: Graph, u: Txn, todo: set<Txn>, v: Txn, done: seq<Txn>, done': seq<Txn>)
    requires Covered(g, u, todo, done) && done <= done' && v in done'
    ensures Covered(g, u, todo - {v}, done')
  {
  }

  /** What the colour of a successor of the last transaction on the stack says about it. */
  lemma Lookup(g: Graph, color: map<Txn, Color>, stack: seq<Txn>, done: seq<Txn>, u: Txn, v: Txn)
    requires Sound(g, color, stack + [u], done) && v in Succ(g, u)
    ensures v in color && color[v] == Gray ==> v in stack + [u]
    ensures v in color && color[v] == Black ==> v in done
    ensures v !in color ==> Reachable(g, color, stack + [u], v)
  {
  }

  lemma CloseCycle(g: Graph, stack: seq<Txn>, i: nat)
    requires IsPath(g, stack) && i < |stack| && stack[i] in Succ(g, stack[|stack| - 1])
    ensures IsCycle(g, stack[i..] + [stack[i]])
  {
    var p := stack[i..] + [stack[i]];
    forall k | 0 <= k < |p| - 1 ensures p[k + 1] in Succ(g, p[k]) {
      if k + 1 < |p| - 1 {
        assert stack[i + k + 1] in Succ(g, stack[i + k]);
      }
    }
  }

  /** The search's colours and call stack. White is having no colour. */
  class CycleFinder {
    const g: Graph
    var color: map<Txn, Color>
    var stack: seq<Txn>
    ghost var done: seq<Txn>

    ghost predicate Valid()
      reads this
    {
      Sound(g, color, stack, done)
    }

    constructor (g: Graph)
      ensures Valid() && this.g == g && stack == [] && done == []
    {
      this.g := g;
      color := map[];
      stack := [];
      done := [];
    }

    /** Visit a transaction not yet seen. Finding nothing, the search has finished it and everything it
        leads to; finding something, that is a cycle. */
    method Visit(u: Txn) returns (found: bool, cycle: seq<Txn>)
      requires Valid() && Reachable(g, color, stack, u)
      modifies this
      ensures found ==> IsCycle(g, cycle)
      ensures !found ==> Valid() && stack == old(stack) && old(done) <= done && u in done
      ensures !found ==> old(color.Keys) <= color.Keys
      decreases |Nodes(g) - color.Keys|, 0
    {
      Enter(g, color, stack, done, u);
      color := color[u := Gray];
      stack := stack + [u];
      found, cycle := VisitSuccessors(old(stack), u);
      if found {
        return;
      }
      Leave(g, color, old(stack), done, u);
      stack := stack[..|stack| - 1];
      color := color[u := Black];
      done := done + [u];
    }

    method VisitSuccessors(ghost below: seq<Txn>, u: Txn) returns (found: bool, cycle: seq<Txn>)
      requires Valid() && stack == below + [u]
      modifies this
      ensures found ==> IsCycle(g, cycle)
      ensures !found ==> Valid() && stack == old(stack) && old(done) <= done
      ensures !found ==> old(color.Keys) <= color.Keys && forall v :: v in Succ(g, u) ==> v in done
      decreases |Nodes(g) - color.Keys|, 1
    {
      var todo := Succ(g, u);
      while todo != {}
        invariant Valid() && stack == below + [u] && old(done) <= done && old(color.Keys) <= color.Keys
        invariant Covered(g, u, todo, done)
        decreases |todo|
      {
        var v :| v in todo;
        ghost var before := done;
        Lookup(g, color, below, done, u, v);
        if v in color && color[v] == Gray {
          var i := Position(stack, v);
          CloseCycle(g, stack, i);
          return true, stack[i..] + [v];
        }
        if v !in color {
          SubsetSize(Nodes(g) - color.Keys, Nodes(g) - old(color.Keys));
          found, cycle := Visit(v);
          if found {
            return;
          }
        }
        CoverNext(g, u, todo, v, before, done);
        todo := todo - {v};
      }
      return false, [];
    }
  }

  method Position(s: seq<Txn>, u: Txn) returns (i: nat)
    requires u in s
    ensures i < |s| && s[i] == u
  {
    i := 0;
    while s[i] != u
      invariant i < |s| && u !in s[..i]
      decreases |s| - i
    {
      assert u in s[i + 1..];
      i := i + 1;
    }
  }

  /** Look for a dependency cycle. What is returned is one; returning none, the transactions have an order
      that extends every dependency. */
  method FindCycle(g: Graph) returns (found: bool, cycle: seq<Txn>, ghost order: seq<Txn>)
    ensures found <==> HasCycle(g)
    ensures found ==> IsCycle(g, cycle)
    ensures !found ==> IsSchedule(g, order)
  {
    var finder := new CycleFinder(g);
    var todo := g.Keys;
    order := [];
    while todo != {}
      invariant finder.g == g && finder.Valid() && finder.stack == []
      invariant todo <= g.Keys && forall u :: u in g && u !in todo ==> u in finder.done
      decreases |todo|
    {
      var u :| u in todo;
      todo := todo - {u};
      if u !in finder.color {
        found, cycle := finder.Visit(u);
        if found {
          return;
        }
      }
    }
    FinishOrderIsSchedule(g, finder.done);
    order := Reverse(finder.done);
    ScheduleExcludesCycle(g, order);
    found, cycle := false, [];
  }
}
