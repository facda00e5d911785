/** Kahn's algorithm over a dependency graph (`topoSort` in
    src/Nix/DependencyGraph.hs).  Dependency lists may repeat a path; every
    count below is with repetition, as the code counts. */
module TopologicalSort {
  import opened Basics
  import opened Sorting
  import opened Digraph
  import opened DependencyGraph

  /** The cycle answer carries what did sort, not the members of the cycle. */
  datatype TopoResult = TopoSorted(order: seq<StorePath>) | TopoCycle(sorted: seq<StorePath>)

  // ---- Counting ---------------------------------------------------------

  function Times(s: seq<StorePath>, x: StorePath): nat {
    if s == [] then 0 else (if s[0] == x then 1 else 0) + Times(s[1..], x)
  }

  /** How many entries of a dependency list are in a set. */
  function CountIn(deps: seq<StorePath>, nodes: set<StorePath>): nat {
    if deps == [] then 0 else (if deps[0] in nodes then 1 else 0) + CountIn(deps[1..], nodes)
  }

  lemma {:induction false} TimesPositive(s: seq<StorePath>, x: StorePath)
    ensures Times(s, x) > 0 <==> x in s
  {
    if s != [] {
      TimesPositive(s[1..], x);
    }
  }

  lemma {:induction false} CountWithout(deps: seq<StorePath>, nodes: set<StorePath>, x: StorePath)
    requires x in nodes
    ensures CountIn(deps, nodes) == CountIn(deps, nodes - {x}) + Times(deps, x)
  {
    if deps != [] {
      CountWithout(deps[1..], nodes, x);
    }
  }

  lemma {:induction false} CountPositive(deps: seq<StorePath>, nodes: set<StorePath>)
    ensures CountIn(deps, nodes) > 0 <==> exists d :: d in deps && d in nodes
  {
    if deps != [] {
      CountPositive(deps[1..], nodes);
    }
  }

  // ---- The tables -------------------------------------------------------

  function InGraph(g: DepGraph, deps: seq<StorePath>): seq<StorePath> {
    if deps == [] then []
    else (if deps[0] in g then [deps[0]] else []) + InGraph(g, deps[1..])
  }

  lemma {:induction false} InGraphCounts(g: DepGraph, deps: seq<StorePath>, x: StorePath)
    requires x in g
    ensures Times(InGraph(g, deps), x) == Times(deps, x)
    ensures |InGraph(g, deps)| == CountIn(deps, g.Keys)
  {
    if deps != [] {
      InGraphCounts(g, deps[1..], x);
      var rest := InGraph(g, deps[1..]);
      assert if deps[0] in g then InGraph(g, deps)[1..] == rest else InGraph(g, deps) == rest;
    }
  }

  type Adjacency = map<StorePath, seq<StorePath>>

  /** Prepend a node to the entry of each of its dependencies. */
  function AddReverse(adj: Adjacency, node: StorePath, deps: seq<StorePath>): Adjacency
    decreases |deps|
  {
    if deps == [] then adj
    else if deps[0] in adj then AddReverse(adj[deps[0] := [node] + adj[deps[0]]], node, deps[1..])
    else AddReverse(adj, node, deps[1..])
  }

  function AddAllReverse(adj: Adjacency, g: DepGraph, nodes: seq<StorePath>): Adjacency
    requires Elements(nodes) <= g.Keys
    decreases |nodes|
  {
    if nodes == [] then adj
    else
      assert nodes[0] in Elements(nodes);
      AddAllReverse(AddReverse(adj, nodes[0], InGraph(g, g[nodes[0]].deps)), g, nodes[1..])
  }

  /** For each node, the nodes that depend on it. */
  function ReverseAdj(g: DepGraph): Adjacency {
    AddAllReverse(map n | n in g :: [], g, AscendingPaths(g.Keys))
  }

  lemma {:induction false} AddReverseCounts(adj: Adjacency, node: StorePath, deps: seq<StorePath>, d: StorePath,
                                            n: StorePath)
    requires d in adj
    ensures var r := AddReverse(adj, node, deps);
            r.Keys == adj.Keys && Times(r[d], n) == Times(adj[d], n) + if n == node then Times(deps, d) else 0
    decreases |deps|
  {
    if deps != [] {
      if deps[0] in adj {
        AddReverseCounts(adj[deps[0] := [node] + adj[deps[0]]], node, deps[1..], d, n);
      } else {
        AddReverseCounts(adj, node, deps[1..], d, n);
      }
    }
  }

  lemma {:induction false} AddAllReverseCounts(adj: Adjacency, g: DepGraph, nodes: seq<StorePath>, d: StorePath,
                                               n: StorePath)
    requires Elements(nodes) <= g.Keys && d in adj && adj.Keys == g.Keys && NoDuplicates(nodes)
    ensures var r := AddAllReverse(adj, g, nodes);
            r.Keys == g.Keys && Times(r[d], n) == Times(adj[d], n) + if n in nodes then Times(g[n].deps, d) else 0
    decreases |nodes|
  {
    if nodes != [] {
      assert nodes[0] in Elements(nodes);
      var deps := InGraph(g, g[nodes[0]].deps);
      AddReverseCounts(adj, nodes[0], deps, d, n);
      InGraphCounts(g, g[nodes[0]].deps, d);
      AddAllReverseCounts(AddReverse(adj, nodes[0], deps), g, nodes[1..], d, n);
    }
  }

  /** A node is listed under a dependency as often as it names it. */
  lemma ReverseAdjCounts(g: DepGraph, d: StorePath, n: StorePath)
    requires d in g
    ensures ReverseAdj(g).Keys == g.Keys
    ensures Times(ReverseAdj(g)[d], n) == if n in g then Times(g[n].deps, d) else 0
  {
    AscendingPathsIncrease(g.Keys);
    AddAllReverseCounts(map x | x in g :: [], g, AscendingPaths(g.Keys), d, n);
  }

  // ---- One step ---------------------------------------------------------

  type Counts = map<StorePath, int>

  datatype Decremented = Decremented(counts: Counts, zeros: seq<StorePath>)

  /** Decrement each dependent, prepending any that reaches zero. */
  function DecrementDependents(counts: Counts, zeros: seq<StorePath>, dependents: seq<StorePath>): Decremented
    decreases |dependents|
  {
    if dependents == [] then Decremented(counts, zeros)
    else
      var d := dependents[0];
      var degree := if d in counts then counts[d] - 1 else 0;
      DecrementDependents(counts[d := degree], if degree == 0 then [d] + zeros else zeros, dependents[1..])
  }

  /** Each count falls by the times its node is listed; what reaches zero is
      exactly what is added, once each. */
  lemma {:induction false} DecrementExact(counts: Counts, zeros: seq<StorePath>, dependents: seq<StorePath>)
    requires Elements(dependents) <= counts.Keys
    requires forall x :: x in counts ==> Times(dependents, x) <= counts[x]
    requires NoDuplicates(zeros) && forall x :: x in zeros ==> x in counts && counts[x] == 0
    ensures var r := DecrementDependents(counts, zeros, dependents);
            && r.counts.Keys == counts.Keys
            && (forall x :: x in counts ==> r.counts[x] == counts[x] - Times(dependents, x))
            && NoDuplicates(r.zeros)
            && (forall x :: x in r.zeros <==> x in zeros || (x in dependents && r.counts[x] == 0))
    decreases |dependents|
  {
    if dependents != [] {
      var d, rest := dependents[0], dependents[1..];
      assert d in Elements(dependents) && Times(dependents, d) == 1 + Times(rest, d);
      var counts' := counts[d := counts[d] - 1];
      var zeros' := if counts'[d] == 0 then [d] + zeros else zeros;
      forall x | x in counts'
        ensures Times(rest, x) <= counts'[x]
      {
        assert Times(dependents, x) == (if d == x then 1 else 0) + Times(rest, x);
      }
      DecrementExact(counts', zeros', rest);
      TimesPositive(rest, d);
    }
  }

  // ---- The loop ---------------------------------------------------------

  /** Where the loop stands: what is sorted and what is queued are distinct
      nodes, sorted ones after their dependencies; each count is of the
      dependencies still unsorted, and the nodes with none left are exactly
      those sorted or queued. */
  ghost predicate Underway(g: DepGraph, counts: Counts, queue: seq<StorePath>, order: seq<StorePath>) {
    && counts.Keys == g.Keys
    && (forall n :: n in g ==> counts[n] == CountIn(g[n].deps, g.Keys - Elements(order)))
    && NoDuplicates(order + queue)
    && (forall n :: n in order + queue <==> n in g && counts[n] == 0)
    && SuccessorsFirst(Dependencies(g), order)
  }

  function KahnLoop(ghost g: DepGraph, reverseAdj: Adjacency, counts: Counts, queue: seq<StorePath>,
                    sorted: seq<StorePath>, sortedCount: nat, total: nat): (r: TopoResult)
    requires reverseAdj == ReverseAdj(g) && Underway(g, counts, queue, Reverse(sorted))
    decreases |g.Keys| - |sorted|
  {
    if queue == [] then
      if sortedCount == total then TopoSorted(Reverse(sorted)) else TopoCycle(Reverse(sorted))
    else
      var n := queue[0];
      var step := DecrementDependents(counts, [], if n in reverseAdj then reverseAdj[n] else []);
      StepKeepsUnderway(g, counts, queue, Reverse(sorted));
      assert Reverse([n] + sorted) == Reverse(sorted) + [n];
      KahnLoop(g, reverseAdj, step.counts, queue[1..] + step.zeros, [n] + sorted, sortedCount + 1, total)
  }

  /** Sorting a node takes it out of what the others still wait for. */
  lemma StepCounts(g: DepGraph, counts: Counts, order: seq<StorePath>, n: StorePath)
    requires n in g && n !in order && counts.Keys == g.Keys
    requires forall x :: x in g ==> counts[x] == CountIn(g[x].deps, g.Keys - Elements(order))
    ensures n in ReverseAdj(g)
    ensures var step := DecrementDependents(counts, [], ReverseAdj(g)[n]);
            && step.counts.Keys == g.Keys && NoDuplicates(step.zeros)
            && (forall x :: x in g ==> step.counts[x] == CountIn(g[x].deps, g.Keys - Elements(order + [n])))
            && (forall x :: x in g ==> 0 <= step.counts[x] <= counts[x])
            && (forall x :: x in step.zeros <==> x in g && step.counts[x] == 0 && counts[x] > 0)
  {
    ReverseAdjCounts(g, n, n);
    var r := ReverseAdj(g)[n];
    forall x
      ensures x in r ==> x in g
      ensures x in g ==> Times(r, x) == Times(g[x].deps, n) && (x in r <==> Times(r, x) > 0)
    {
      ReverseAdjCounts(g, n, x);
      TimesPositive(r, x);
    }
    var waiting := g.Keys - Elements(order);
    assert waiting - {n} == g.Keys - Elements(order + [n]);
    forall x | x in g
      ensures counts[x] == CountIn(g[x].deps, waiting - {n}) + Times(r, x)
    {
      CountWithout(g[x].deps, waiting, n);
    }
    DecrementExact(counts, [], r);
  }

  lemma StepKeepsUnderway(g: DepGraph, counts: Counts, queue: seq<StorePath>, order: seq<StorePath>)
    requires Underway(g, counts, queue, order) && |queue| > 0
    ensures var n := queue[0];
            && n in g && n in ReverseAdj(g)
            && var step := DecrementDependents(counts, [], ReverseAdj(g)[n]);
               Underway(g, step.counts, queue[1..] + step.zeros, order + [n])
    ensures |order| < |g.Keys|
  {
    var n := queue[0];
    HeadIsUnsorted(order, queue);
    StepCounts(g, counts, order, n);
    var step := DecrementDependents(counts, [], ReverseAdj(g)[n]);
    SortedAfterDependencies(g, counts, order, n);
    DistinctSize(order + queue, g.Keys);
    StepListed(g, counts, step, order, queue);
  }

  lemma HeadIsUnsorted(order: seq<StorePath>, queue: seq<StorePath>)
    requires |queue| > 0 && NoDuplicates(order + queue)
    ensures queue[0] in order + queue && queue[0] !in order
  {
    assert queue[0] == (order + queue)[|order|];
    assert forall i :: 0 <= i < |order| ==> (order + queue)[i] == order[i];
  }

  /** What reaches zero joins the sorted and queued, and nothing else does. */
  lemma StepListed(g: DepGraph, counts: Counts, step: Decremented, order: seq<StorePath>, queue: seq<StorePath>)
    requires |queue| > 0 && counts.Keys == g.Keys && NoDuplicates(order + queue) && NoDuplicates(step.zeros)
    requires step.counts.Keys == g.Keys
    requires forall x :: x in g ==> 0 <= step.counts[x] <= counts[x]
    requires forall x :: x in order + queue <==> x in g && counts[x] == 0
    requires forall x :: x in step.zeros <==> x in g && step.counts[x] == 0 && counts[x] > 0
    ensures var listed := (order + [queue[0]]) + (queue[1..] + step.zeros);
            NoDuplicates(listed) && forall x :: x in listed <==> x in g && step.counts[x] == 0
  {
    AppendDistinct(order + queue, step.zeros);
    assert (order + [queue[0]]) + (queue[1..] + step.zeros) == (order + queue) + step.zeros;
    assert forall x :: x in (order + queue) + step.zeros <==> x in order + queue || x in step.zeros;
  }

  lemma SortedAfterDependencies(g: DepGraph, counts: Counts, order: seq<StorePath>, n: StorePath)
    requires n in g && SuccessorsFirst(Dependencies(g), order)
    requires CountIn(g[n].deps, g.Keys - Elements(order)) == 0
    ensures SuccessorsFirst(Dependencies(g), order + [n])
  {
    var o := order + [n];
    forall i, b | 0 <= i < |o| && Edge(Dependencies(g), o[i], b)
      ensures b in o[..i]
    {
      if i < |order| {
        assert o[..i] == order[..i];
      } else {
        assert o[..i] == order;
        CountPositive(g[n].deps, g.Keys - Elements(order));
      }
    }
  }

  function DepCount(g: DepGraph): Counts {
    map n | n in g :: CountIn(g[n].deps, g.Keys)
  }

  /** The nodes that wait for nothing, in order. */
  function ZeroNodes(counts: Counts, nodes: seq<StorePath>): (r: seq<StorePath>)
    requires Elements(nodes) <= counts.Keys
    ensures forall n :: n in r <==> n in nodes && counts[n] == 0
  {
    if nodes == [] then []
    else
      assert nodes[0] in Elements(nodes);
      (if counts[nodes[0]] == 0 then [nodes[0]] else []) + ZeroNodes(counts, nodes[1..])
  }

  lemma {:induction false} ZeroNodesOnce(counts: Counts, nodes: seq<StorePath>)
    requires Elements(nodes) <= counts.Keys && NoDuplicates(nodes)
    ensures NoDuplicates(ZeroNodes(counts, nodes))
  {
    if nodes != [] {
      assert nodes[0] in Elements(nodes);
      ZeroNodesOnce(counts, nodes[1..]);
    }
  }

  function TopoSort(g: DepGraph): TopoResult {
    StartUnderway(g);
    KahnLoop(g, ReverseAdj(g), DepCount(g), ZeroNodes(DepCount(g), AscendingPaths(g.Keys)), [], 0, |g|)
  }

  lemma StartUnderway(g: DepGraph)
    ensures Elements(AscendingPaths(g.Keys)) <= DepCount(g).Keys
    ensures Underway(g, DepCount(g), ZeroNodes(DepCount(g), AscendingPaths(g.Keys)), Reverse([]))
  {
    var keys := AscendingPaths(g.Keys);
    AscendingPathsIncrease(g.Keys);
    ZeroNodesOnce(DepCount(g), keys);
    NothingSorted(g, ZeroNodes(DepCount(g), keys));
    assert Reverse<StorePath>([]) == [];
  }

  lemma NothingSorted(g: DepGraph, queue: seq<StorePath>)
    requires NoDuplicates(queue) && forall n :: n in queue <==> n in g && DepCount(g)[n] == 0
    ensures Underway(g, DepCount(g), queue, [])
  {
    assert [] + queue == queue;
    assert g.Keys - Elements<StorePath>([]) == g.Keys;
  }

  // ---- What the sort promises -------------------------------------------

  /** Every node exactly once. */
  ghost predicate Permutes(g: DepGraph, order: seq<StorePath>) {
    NoDuplicates(order) && forall n :: n in order <==> n in g
  }

  /** What an answer promises: all the nodes in order; or a start in order, without
      exactly those that reach a cycle, of which there are some. */
  ghost predicate Answers(g: DepGraph, r: TopoResult) {
    match r
    case TopoSorted(order) => Permutes(g, order) && SuccessorsFirst(Dependencies(g), order)
    case TopoCycle(sorted) =>
      && NoDuplicates(sorted) && Elements(sorted) < g.Keys && SuccessorsFirst(Dependencies(g), sorted)
      && forall n :: n in g && n !in sorted ==> LeadsToCycle(Dependencies(g), {n})
  }

  lemma {:induction false} KahnLoopSorts(g: DepGraph, counts: Counts, queue: seq<StorePath>, sorted: seq<StorePath>)
    requires Underway(g, counts, queue, Reverse(sorted))
    ensures Answers(g, KahnLoop(g, ReverseAdj(g), counts, queue, sorted, |sorted|, |g|))
    decreases |g.Keys| - |sorted|
  {
    if |queue| == 0 {
      KahnEnds(g, counts, queue, sorted);
    } else {
      var counts', queue', sorted' := KahnTurn(g, counts, queue, sorted);
      KahnLoopSorts(g, counts', queue', sorted');
    }
  }

  /** One turn of the loop leads on to a state with one more node sorted. */
  lemma KahnTurn(g: DepGraph, counts: Counts, queue: seq<StorePath>, sorted: seq<StorePath>)
      returns (counts': Counts, queue': seq<StorePath>, sorted': seq<StorePath>)
    requires Underway(g, counts, queue, Reverse(sorted)) && |queue| > 0
    ensures Underway(g, counts', queue', Reverse(sorted'))
    ensures |sorted'| == |sorted| + 1 <= |g.Keys|
    ensures KahnLoop(g, ReverseAdj(g), counts, queue, sorted, |sorted|, |g|)
         == KahnLoop(g, ReverseAdj(g), counts', queue', sorted', |sorted'|, |g|)
  {
    var n := queue[0];
    StepKeepsUnderway(g, counts, queue, Reverse(sorted));
    var step := DecrementDependents(counts, [], ReverseAdj(g)[n]);
    counts', queue', sorted' := step.counts, queue[1..] + step.zeros, [n] + sorted;
    assert Reverse(sorted') == Reverse(sorted) + [n];
  }

  lemma KahnEnds(g: DepGraph, counts: Counts, queue: seq<StorePath>, sorted: seq<StorePath>)
    requires Underway(g, counts, queue, Reverse(sorted)) && |queue| == 0
    ensures Answers(g, KahnLoop(g, ReverseAdj(g), counts, queue, sorted, |sorted|, |g|))
  {
    var order := Reverse(sorted);
    assert queue == [];
    KahnStops(g, counts, order);
    assert KahnLoop(g, ReverseAdj(g), counts, queue, sorted, |sorted|, |g|)
        == if |order| == |g| then TopoSorted(order) else TopoCycle(order);
  }

  /** With nothing ready, every node is sorted or some wait for one another. */
  lemma KahnStops(g: DepGraph, counts: Counts, order: seq<StorePath>)
    requires Underway(g, counts, [], order)
    ensures Answers(g, if |order| == |g| then TopoSorted(order) else TopoCycle(order))
  {
    assert order + [] == order;
    DistinctSize(order, g.Keys);
    if |order| != |g| {
      StuckHasCycle(g, counts, order);
    }
  }

  /** Nodes that all still wait for one another reach a cycle. */
  lemma StuckHasCycle(g: DepGraph, counts: Counts, order: seq<StorePath>)
    requires Underway(g, counts, [], order) && |order| != |g|
    ensures Elements(order) < g.Keys
    ensures forall n :: n in g && n !in order ==> LeadsToCycle(Dependencies(g), {n})
  {
    var waiting := g.Keys - Elements(order);
    assert order + [] == order;
    if Elements(order) == g.Keys {
      DistinctIsSize(order);
    }
    forall n | n in waiting
      ensures SuccessorIn(Dependencies(g), waiting, n)
    {
      assert counts[n] != 0;
      CountPositive(g[n].deps, waiting);
      var d :| d in g[n].deps && d in waiting;
      assert Edge(Dependencies(g), n, d);
    }
    forall n | n in g && n !in order
      ensures LeadsToCycle(Dependencies(g), {n})
    {
      NoSinkLeadsToCycle(Dependencies(g), waiting, n);
    }
  }

  lemma TopoSortAnswers(g: DepGraph)
    ensures Answers(g, TopoSort(g))
  {
    StartUnderway(g);
    KahnLoopSorts(g, DepCount(g), ZeroNodes(DepCount(g), AscendingPaths(g.Keys)), []);
  }

  /** The sort succeeds exactly when the graph has no cycle, and then lists
      every node once, after everything it depends on. */
  lemma TopoSortDecidesCycles(g: DepGraph)
    ensures var r := TopoSort(g);
            && (r.TopoSorted? <==> Acyclic(Dependencies(g)))
            && (r.TopoSorted? ==> Permutes(g, r.order) && SuccessorsFirst(Dependencies(g), r.order))
  {
    TopoSortAnswers(g);
    AnswerDecides(g, TopoSort(g));
  }

  lemma AnswerDecides(g: DepGraph, r: TopoResult)
    requires Answers(g, r)
    ensures r.TopoSorted? <==> Acyclic(Dependencies(g))
  {
    match r
    case TopoSorted(order) =>
      OrderedIsAcyclic(Dependencies(g), order);
    case TopoCycle(sorted) =>
      assert !(g.Keys <= Elements(sorted));
      var n :| n in g.Keys && n !in Elements(sorted);
      CycleIsCycle(Dependencies(g), {n});
  }

  /** A cycle's answer lists, once each and after what they depend on, exactly the
      nodes that reach no cycle. */
  lemma CycleAnswerIsExact(g: DepGraph)
    ensures var r := TopoSort(g);
            r.TopoCycle? ==>
              && NoDuplicates(r.sorted) && SuccessorsFirst(Dependencies(g), r.sorted)
              && forall n :: n in r.sorted <==> n in g && !LeadsToCycle(Dependencies(g), {n})
  {
    TopoSortAnswers(g);
    if TopoSort(g).TopoCycle? {
      AnswerIsExact(g, TopoSort(g));
    }
  }

  lemma AnswerIsExact(g: DepGraph, r: TopoResult)
    requires Answers(g, r) && r.TopoCycle?
    ensures forall n :: n in r.sorted <==> n in g && !LeadsToCycle(Dependencies(g), {n})
  {
    forall n | n in r.sorted
      ensures n in g && !LeadsToCycle(Dependencies(g), {n})
    {
      assert n in Elements(r.sorted);
      OrderLeadsToNoCycle(Dependencies(g), r.sorted, {n});
    }
  }
}
