/** Finite directed graphs: reachability, cycles, and a rank for acyclic ones. */
module Digraph {
  import opened Basics

  type Node = nat
  type Graph = map<Node, set<Node>>

  /** An edge between two nodes of the graph; a reference to anything else dangles. */
  predicate Edge(g: Graph, a: Node, b: Node) {
    a in g && b in g && b in g[a]
  }

  ghost predicate Walk(g: Graph, w: seq<Node>) {
    && |w| > 0
    && w[0] in g
    && forall i :: 0 < i < |w| ==> Edge(g, w[i - 1], w[i])
  }

  ghost predicate WalkBetween(g: Graph, a: Node, b: Node, w: seq<Node>) {
    Walk(g, w) && w[0] == a && w[|w| - 1] == b
  }

  ghost predicate Reaches(g: Graph, a: Node, b: Node) {
    exists w :: WalkBetween(g, a, b, w)
  }

  /** `b` is reached from `a` over at least one edge. */
  ghost predicate ReachesPast(g: Graph, a: Node, b: Node) {
    exists next :: Edge(g, a, next) && Reaches(g, next, b)
  }

  ghost predicate Acyclic(g: Graph) {
    forall a :: !ReachesPast(g, a, a)
  }

  lemma ReachesSelf(g: Graph, a: Node)
    requires a in g
    ensures Reaches(g, a, a)
  {
    assert WalkBetween(g, a, a, [a]);
  }

  lemma ReachesStep(g: Graph, a: Node, b: Node, c: Node)
    requires Reaches(g, a, b) && Edge(g, b, c)
    ensures Reaches(g, a, c)
  {
    var w :| WalkBetween(g, a, b, w);
    assert WalkBetween(g, a, c, w + [c]);
  }

  lemma ReachesTransitive(g: Graph, a: Node, b: Node, c: Node)
    requires Reaches(g, a, b) && Reaches(g, b, c)
    ensures Reaches(g, a, c)
  {
    var w :| WalkBetween(g, a, b, w);
    var v :| WalkBetween(g, b, c, v);
    var u := w + v[1..];
    forall i | 0 < i < |u|
      ensures Edge(g, u[i - 1], u[i])
    {
      if i >= |w| {
        assert u[i] == v[i - |w| + 1];
        assert u[i - 1] == v[i - |w|];
      }
    }
    assert WalkBetween(g, a, c, u);
  }

  /** A set of nodes that holds `a` and every successor of its members holds all `a` reaches. */
  lemma {:induction false} ClosedHoldsWalk(g: Graph, s: set<Node>, w: seq<Node>)
    requires Walk(g, w) && w[0] in s
    requires forall x, y :: x in s && Edge(g, x, y) ==> y in s
    ensures w[|w| - 1] in s
    decreases |w|
  {
    if |w| > 1 {
      assert Edge(g, w[0], w[1]);
      assert forall i :: 0 < i < |w[1..]| ==> w[1..][i - 1] == w[i] && w[1..][i] == w[i + 1];
      ClosedHoldsWalk(g, s, w[1..]);
    }
  }

  lemma ClosedHoldsReachable(g: Graph, s: set<Node>, a: Node)
    requires a in s
    requires forall x, y :: x in s && Edge(g, x, y) ==> y in s
    ensures forall b :: Reaches(g, a, b) ==> b in s
  {
    forall b | Reaches(g, a, b)
      ensures b in s
    {
      var w :| WalkBetween(g, a, b, w);
      ClosedHoldsWalk(g, s, w);
    }
  }

  lemma ReachedIsNode(g: Graph, a: Node, b: Node)
    requires Reaches(g, a, b)
    ensures a in g && b in g
  {
    var w :| WalkBetween(g, a, b, w);
    if |w| > 1 {
      assert Edge(g, w[|w| - 2], w[|w| - 1]);
    }
  }

  /** What a node reaches over at least one edge. */
  ghost function Beyond(g: Graph, a: Node): set<Node> {
    set x | x in g && ReachesPast(g, a, x)
  }

  /** This number falls along every edge to a node on no cycle. */
  ghost function Rank(g: Graph, a: Node): nat {
    |Beyond(g, a)|
  }

  lemma SubsetSize<T>(a: set<T>, b: set<T>)
    requires a <= b
    ensures |a| <= |b|
    ensures a != b ==> |a| < |b|
  {
    assert b == a + (b - a);
    if a != b {
      assert b - a != {};
    }
  }

  lemma RankFalls(g: Graph, a: Node, b: Node)
    requires Edge(g, a, b) && !ReachesPast(g, b, b)
    ensures Rank(g, b) < Rank(g, a)
  {
    forall x | x in Beyond(g, b)
      ensures x in Beyond(g, a)
    {
      var next :| Edge(g, b, next) && Reaches(g, next, x);
      ReachesSelf(g, b);
      ReachesStep(g, b, b, next);
      ReachesTransitive(g, b, next, x);
    }
    ReachesSelf(g, b);
    assert b in Beyond(g, a) && b !in Beyond(g, b);
    SubsetSize(Beyond(g, b), Beyond(g, a));
  }

  lemma BeyondStep(g: Graph, a: Node, x: Node, y: Node)
    requires x in Beyond(g, a) && Edge(g, x, y)
    ensures y in Beyond(g, a)
  {
    var next :| Edge(g, a, next) && Reaches(g, next, x);
    ReachesStep(g, next, x, y);
  }

  lemma BeyondFirst(g: Graph, a: Node, b: Node)
    requires Edge(g, a, b)
    ensures b in Beyond(g, a)
  {
    ReachesSelf(g, b);
  }

  ghost predicate SuccessorIn(g: Graph, s: set<Node>, a: Node) {
    exists b :: b in s && Edge(g, a, b)
  }

  /** Every member has a successor in the set. */
  ghost predicate NoSink(g: Graph, s: set<Node>) {
    forall a {:trigger SuccessorIn(g, s, a)} :: a in s ==> SuccessorIn(g, s, a)
  }

  lemma NoSinkBeyond(g: Graph, s: set<Node>, a: Node)
    requires NoSink(g, s) && a in s
    ensures s * Beyond(g, a) != {} && NoSink(g, s * Beyond(g, a))
  {
    assert SuccessorIn(g, s, a);
    var b :| b in s && Edge(g, a, b);
    BeyondFirst(g, a, b);
    assert b in s * Beyond(g, a);
    forall x | x in s * Beyond(g, a)
      ensures SuccessorIn(g, s * Beyond(g, a), x)
    {
      assert SuccessorIn(g, s, x);
      var y :| y in s && Edge(g, x, y);
      BeyondStep(g, a, x, y);
      assert y in s * Beyond(g, a);
    }
  }

  /** A nonempty set of nodes each with a successor in the set holds a node on a cycle. */
  lemma {:induction false} NoSinkHasCycle(g: Graph, s: set<Node>) returns (a: Node)
    requires s != {} && NoSink(g, s)
    ensures a in s && ReachesPast(g, a, a)
    decreases |s|
  {
    a :| a in s;
    if !ReachesPast(g, a, a) {
      NoSinkBeyond(g, s, a);
      SubsetSize(s * Beyond(g, a), s);
      a := NoSinkHasCycle(g, s * Beyond(g, a));
    }
  }

  /** A listing that places every successor strictly before its node. */
  ghost predicate SuccessorsFirst(g: Graph, order: seq<Node>) {
    forall i, b :: 0 <= i < |order| && Edge(g, order[i], b) ==> b in order[..i]
  }

  lemma {:induction false} OrderHoldsWalk(g: Graph, order: seq<Node>, i: nat, w: seq<Node>)
    requires SuccessorsFirst(g, order) && i < |order|
    requires Walk(g, w) && w[0] in order[..i]
    ensures w[|w| - 1] in order[..i]
  {
    forall x, y | x in order[..i] && Edge(g, x, y)
      ensures y in order[..i]
    {
      var j :| 0 <= j < i && order[j] == x;
      assert y in order[..j];
    }
    ClosedHoldsWalk(g, Elements(order[..i]), w);
  }

  /** What is listed successors first is on no cycle. */
  lemma NotOnCycle(g: Graph, order: seq<Node>, a: Node)
    requires SuccessorsFirst(g, order) && a in order
    ensures !ReachesPast(g, a, a)
  {
    if ReachesPast(g, a, a) {
      var next :| Edge(g, a, next) && Reaches(g, next, a);
      var i := Clean(x => x == a, order);
      var w :| WalkBetween(g, next, a, w);
      OrderHoldsWalk(g, order, i, w);
    }
  }

  /** A graph all of whose nodes can be listed successors first has no cycle. */
  lemma OrderedIsAcyclic(g: Graph, order: seq<Node>)
    requires SuccessorsFirst(g, order)
    requires forall a :: a in g ==> a in order
    ensures Acyclic(g)
  {
    forall a
      ensures !ReachesPast(g, a, a)
    {
      if a in g {
        NotOnCycle(g, order, a);
      }
    }
  }

  ghost predicate ReachedFromAny(g: Graph, starts: set<Node>, b: Node) {
    exists a :: a in starts && Reaches(g, a, b)
  }

  /** A cycle is reached from one of the nodes. */
  ghost predicate LeadsToCycle(g: Graph, starts: set<Node>) {
    exists b :: ReachedFromAny(g, starts, b) && ReachesPast(g, b, b)
  }

  lemma CycleIsCycle(g: Graph, starts: set<Node>)
    requires LeadsToCycle(g, starts)
    ensures !Acyclic(g)
  {
    var b :| ReachedFromAny(g, starts, b) && ReachesPast(g, b, b);
  }

  /** Each node of such a set reaches a cycle. */
  lemma NoSinkLeadsToCycle(g: Graph, s: set<Node>, a: Node)
    requires NoSink(g, s) && a in s
    ensures LeadsToCycle(g, {a})
  {
    NoSinkBeyond(g, s, a);
    var b := NoSinkHasCycle(g, s * Beyond(g, a));
    var next :| Edge(g, a, next) && Reaches(g, next, b);
    ReachesSelf(g, a);
    ReachesStep(g, a, a, next);
    ReachesTransitive(g, a, next, b);
    assert ReachedFromAny(g, {a}, b);
  }

  /** Nothing reached from what is listed successors first is on a cycle. */
  lemma OrderLeadsToNoCycle(g: Graph, order: seq<Node>, starts: set<Node>)
    requires SuccessorsFirst(g, order) && starts <= Elements(order)
    ensures !LeadsToCycle(g, starts)
  {
    forall b | ReachedFromAny(g, starts, b)
      ensures !ReachesPast(g, b, b)
    {
      var a :| a in starts && Reaches(g, a, b);
      ClosedHoldsReachable(g, Elements(order), a);
      NotOnCycle(g, order, b);
    }
  }

  /** A part of a graph with the same edges out of each of its nodes. */
  ghost predicate ClosedPart(part: Graph, g: Graph) {
    part.Keys <= g.Keys && forall a, b :: a in part ==> (Edge(part, a, b) <==> Edge(g, a, b))
  }

  lemma {:induction false} ClosedPartWalk(part: Graph, g: Graph, w: seq<Node>)
    requires ClosedPart(part, g) && |w| > 0 && w[0] in part
    ensures Walk(part, w) <==> Walk(g, w)
    decreases |w|
  {
    if |w| > 1 {
      var v := w[1..];
      assert forall h: Graph :: Walk(h, w) <==> w[0] in h && Edge(h, w[0], v[0]) && Walk(h, v) by {
        forall h: Graph
          ensures Walk(h, w) <==> w[0] in h && Edge(h, w[0], v[0]) && Walk(h, v)
        {
          WalkHead(h, w);
        }
      }
      if Edge(part, w[0], v[0]) {
        ClosedPartWalk(part, g, v);
      }
    }
  }

  lemma WalkHead(g: Graph, w: seq<Node>)
    requires |w| > 1
    ensures Walk(g, w) <==> Edge(g, w[0], w[1]) && Walk(g, w[1..])
  {
    var v := w[1..];
    assert forall i :: 0 < i < |v| ==> v[i - 1] == w[i] && v[i] == w[i + 1];
    if Edge(g, w[0], w[1]) && Walk(g, v) {
      forall i | 0 < i < |w|
        ensures Edge(g, w[i - 1], w[i])
      {
        if i > 1 {
          assert Edge(g, v[i - 2], v[i - 1]);
        }
      }
    }
    if Walk(g, w) {
      assert Edge(g, w[0], w[1]);
    }
  }

  /** Such a part has the cycles of the graph that pass through it. */
  lemma ClosedPartCycles(part: Graph, g: Graph, a: Node)
    requires ClosedPart(part, g) && a in part
    ensures ReachesPast(part, a, a) <==> ReachesPast(g, a, a)
  {
    forall next, w | Edge(g, a, next)
      ensures WalkBetween(part, next, a, w) <==> WalkBetween(g, next, a, w)
    {
      assert Edge(part, a, next);
      if |w| > 0 && w[0] == next {
        ClosedPartWalk(part, g, w);
      }
    }
    if ReachesPast(g, a, a) {
      var next :| Edge(g, a, next) && Reaches(g, next, a);
      var w :| WalkBetween(g, next, a, w);
      assert WalkBetween(part, next, a, w) && Edge(part, a, next);
    }
    if ReachesPast(part, a, a) {
      var next :| Edge(part, a, next) && Reaches(part, next, a);
      var w :| WalkBetween(part, next, a, w);
      assert Edge(g, a, next);
      assert WalkBetween(g, next, a, w);
    }
  }
}
