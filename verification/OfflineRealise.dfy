/** A run no cache contributes to builds exactly what it has to. */
module OfflineRealise {
  import opened Basics
  import opened Derivations
  import opened Digraph
  import opened DependencyGraph
  import opened Realisation
  import opened ClosureSafety
  import opened RealiseSafety

  /** No cache offers anything and no other process registers anything. */
  ghost predicate Offline(o: Outside) {
    && (forall h, p :: o.offer(h, p) == NotOffered)
    && (forall h :: o.meanwhile(h) == map[])
  }

  ghost predicate DistinctOutputs(g: DepGraph) {
    forall m, n, p :: m in g && n in g && p in g[m].drv.OutputPaths() && p in g[n].drv.OutputPaths() ==> m == n
  }

  /** The derivations built, in order. */
  ghost function BuiltNodes(t: Trace): seq<StorePath> {
    if t == [] then []
    else
      var e := t[|t| - 1];
      BuiltNodes(t[..|t| - 1]) + if e.Build? && e.succeeded then [e.node] else []
  }

  ghost function OutputsOf(g: DepGraph, nodes: seq<StorePath>): set<StorePath> {
    if nodes == [] then {}
    else
      var n := nodes[|nodes| - 1];
      OutputsOf(g, nodes[..|nodes| - 1]) + if n in g then Elements(g[n].drv.OutputPaths()) else {}
  }

  /** Not finished in the store the run starts from. */
  ghost predicate Pending(g: DepGraph, start: Store, n: StorePath) {
    n in g && !(Elements(g[n].drv.OutputPaths()) <= start.Keys)
  }

  /** The dependencies among the pending derivations. */
  ghost function PendingGraph(g: DepGraph, start: Store): Graph {
    map n | n in g && Pending(g, start, n) :: Elements(g[n].deps)
  }

  // ---- Without caches only builds change the store ----------------------

  lemma BuiltStep(t: Trace, e: Event)
    ensures BuiltNodes(t + [e]) == BuiltNodes(t) + if e.Build? && e.succeeded then [e.node] else []
  {
    assert (t + [e])[..|t|] == t;
  }

  lemma {:induction false} OutputsOfHolds(g: DepGraph, nodes: seq<StorePath>, p: StorePath) returns (n: StorePath)
    requires p in OutputsOf(g, nodes)
    ensures n in nodes && n in g && p in g[n].drv.OutputPaths()
  {
    var last := nodes[|nodes| - 1];
    if last in g && p in g[last].drv.OutputPaths() {
      n := last;
    } else {
      n := OutputsOfHolds(g, nodes[..|nodes| - 1], p);
    }
  }

  ghost predicate Unchanged(w: World, w': World) {
    w'.store == w.store && BuiltNodes(w'.trace) == BuiltNodes(w.trace)
  }

  lemma ElapseUnchanged(o: Outside, w: World, e: Event)
    requires Offline(o) && !e.Build?
    ensures Unchanged(w, Elapse(o, w, e, map[]))
  {
    BuiltStep(w.trace, e);
    assert map[] + o.meanwhile(w.trace) + w.store == w.store;
  }

  lemma {:induction false} AskAllOffline(o: Outside, w: World, paths: seq<StorePath>)
    requires Offline(o)
    ensures var a := AskAll(o, w, paths);
            && Unchanged(w, a.world) && a.answer.Ok?
            && (a.answer.value.None? <==> paths != [])
    decreases |paths|
  {
    if paths != [] {
      ElapseUnchanged(o, w, Query(paths[0]));
      AskAllOffline(o, AfterQuery(o, w, paths[0]), paths[1..]);
    }
  }

  lemma SubstituteOffline(o: Outside, w: World, paths: seq<StorePath>)
    requires Bounded(o) && Offline(o)
    ensures var a := SubstituteClosure(o, w, paths);
            && Unchanged(w, a.world)
            && a.outcome == if Elements(paths) <= w.store.Keys then ClosureComplete else ClosureUnavailable
  {
    AskAllOffline(o, w, Missing(w, paths));
    assert Missing(w, paths) == [] <==> Elements(paths) <= w.store.Keys by {
      if Missing(w, paths) != [] {
        assert Missing(w, paths)[0] in paths;
      }
    }
  }

  // ---- What a run has built so far --------------------------------------

  /** The store is the starting one and what was built; the builds are pending
      derivations, once each, visited, and after what they depend on. */
  ghost predicate Accounted(g: DepGraph, start: Store, w: World, visited: set<StorePath>) {
    var built := BuiltNodes(w.trace);
    && w.store.Keys == start.Keys + OutputsOf(g, built)
    && Elements(built) <= visited
    && NoDuplicates(built)
    && (forall n :: n in built ==> Pending(g, start, n))
    && SuccessorsFirst(PendingGraph(g, start), built)
  }

  lemma AccountedLater(g: DepGraph, start: Store, w: World, w': World, visited: set<StorePath>, deeper: set<StorePath>)
    requires Accounted(g, start, w, visited) && Unchanged(w, w') && visited <= deeper
    ensures Accounted(g, start, w', deeper)
  {
  }

  /** A pending derivation whose outputs are all valid was built. */
  lemma RealisedWasBuilt(g: DepGraph, start: Store, w: World, visited: set<StorePath>, n: StorePath)
    requires DistinctOutputs(g) && Accounted(g, start, w, visited)
    requires Pending(g, start, n) && OutputsValid(g, w.store, n)
    ensures n in BuiltNodes(w.trace)
  {
    var p :| p in g[n].drv.OutputPaths() && p !in start;
    assert p in Elements(g[n].drv.OutputPaths());
    var m := OutputsOfHolds(g, BuiltNodes(w.trace), p);
  }

  /** What realising `nodes` adds: every newly visited pending derivation is
      built and has its pending dependencies visited, and whatever was built is
      reached from `nodes` through pending derivations. */
  ghost predicate Covers(g: DepGraph, start: Store, w: World, visited: set<StorePath>, nodes: seq<StorePath>,
                         r: Progress)
    requires r.result.Ok?
  {
    var before, after, seen := BuiltNodes(w.trace), BuiltNodes(r.world.trace), r.result.value;
    && Accounted(g, start, r.world, seen)
    && Elements(before) <= Elements(after)
    && visited <= seen
    && (forall a :: a in nodes && Pending(g, start, a) ==> a in seen)
    && (forall n :: n in seen - visited && Pending(g, start, n) ==> n in after && DependenciesSeen(g, start, n, seen))
    && (forall n :: n in after && n !in before ==> n !in visited && ReachedFrom(g, start, nodes, n))
  }

  ghost predicate DependenciesSeen(g: DepGraph, start: Store, n: StorePath, seen: set<StorePath>) {
    forall d :: d in DirectDeps(g, n) && Pending(g, start, d) ==> d in seen
  }

  ghost predicate ReachedFrom(g: DepGraph, start: Store, nodes: seq<StorePath>, n: StorePath) {
    exists a :: a in nodes && Reaches(PendingGraph(g, start), a, n)
  }

  lemma {:induction false} RealiseNodeOffline(fallback: Fallback, o: Outside, g: DepGraph, start: Store, w: World,
                                              visited: set<StorePath>, node: StorePath)
    requires Bounded(o) && Offline(o) && Acyclic(Dependencies(g)) && DistinctOutputs(g)
    requires BuildsReady(g, w.trace) && VisitedRealised(g, w, visited, Rank(Dependencies(g), node) + 1)
    requires Accounted(g, start, w, visited)
    ensures var r := RealiseNode(fallback, o, g, w, visited, node);
            r.result.Ok? ==> Covers(g, start, w, visited, [node], r)
    decreases |g.Keys - visited|, 0, 2, 0
  {
    if node !in visited && node in g {
      var drv := g[node].drv;
      if AllOutputsValid(w, drv) {
        ElapseUnchanged(o, w, Report(AlreadyValid, drv));
        NotBuilt(g, start, w, visited, node, AfterReport(o, w, AlreadyValid, drv));
      } else {
        SubstituteOffline(o, w, drv.OutputPaths());
        SubstituteFacts(o, g, w, node);
        var first := SubstituteClosure(o, w, drv.OutputPaths());
        if first.outcome.ClosureComplete? {
          ElapseUnchanged(o, first.world, Report(Substituted, drv));
          NotBuilt(g, start, w, visited, node, AfterReport(o, first.world, Substituted, drv));
        } else {
          BuildFromInputsOffline(fallback, o, g, start, w, visited, node, first);
        }
      }
    }
  }

  /** A node found finished was not pending, or it was built before. */
  lemma NotBuilt(g: DepGraph, start: Store, w: World, visited: set<StorePath>, node: StorePath, w': World)
    requires DistinctOutputs(g) && Accounted(g, start, w, visited) && node in g && node !in visited
    requires Unchanged(w, w') && OutputsValid(g, w.store, node)
    ensures Covers(g, start, w, visited, [node], Progress(Ok(visited + {node}), w'))
  {
    if Pending(g, start, node) {
      RealisedWasBuilt(g, start, w, visited, node);
    }
    AccountedLater(g, start, w, w', visited, visited + {node});
  }

  lemma {:induction false} BuildFromInputsOffline(fallback: Fallback, o: Outside, g: DepGraph, start: Store, w: World,
                                                  visited: set<StorePath>, node: StorePath, first: Attempt)
    requires Bounded(o) && Offline(o) && Acyclic(Dependencies(g)) && DistinctOutputs(g)
    requires node in g && node !in visited && !OutputsValid(g, w.store, node)
    requires VisitedRealised(g, w, visited, Rank(Dependencies(g), node) + 1)
    requires Accounted(g, start, w, visited)
    requires first.outcome.ClosureUnavailable? && Unchanged(w, first.world)
    requires Grows(w, first.world) && BuildsReady(g, first.world.trace)
    ensures var r := BuildFromInputs(fallback, o, g, visited, node, first);
            r.result.Ok? ==> Covers(g, start, w, visited, [node], r)
    decreases |g.Keys - visited|, 0, 1, 0
  {
    assert g.Keys - (visited + {node}) == (g.Keys - visited) - {node};
    var seen, rank, deps := visited + {node}, Rank(Dependencies(g), node), DirectDeps(g, node);
    VisitedLater(g, w, first.world, visited, seen, rank + 1, rank);
    DependenciesRankLower(g, node);
    AccountedLater(g, start, w, first.world, visited, seen);
    RealiseAllReady(fallback, o, g, first.world, seen, deps, rank);
    RealiseAllOffline(fallback, o, g, start, first.world, seen, deps, rank);
    var inputs := RealiseAll(fallback, o, g, first.world, seen, deps);
    if inputs.result.Ok? {
      FinishOffline(fallback, o, g, start, w, visited, node, first, inputs);
      assert BuildFromInputs(fallback, o, g, visited, node, first) ==
             FinishNode(fallback, o, node, g[node].drv, first.outcome, inputs);
    } else {
      assert BuildFromInputs(fallback, o, g, visited, node, first) == inputs;
    }
  }

  lemma FinishOffline(fallback: Fallback, o: Outside, g: DepGraph, start: Store, w: World, visited: set<StorePath>,
                      node: StorePath, first: Attempt, inputs: Progress)
    requires Bounded(o) && Offline(o) && DistinctOutputs(g) && node in g && node !in visited && inputs.result.Ok?
    requires first.outcome.ClosureUnavailable? && Unchanged(w, first.world)
    requires Accounted(g, start, w, visited) && !OutputsValid(g, w.store, node)
    requires Covers(g, start, first.world, visited + {node}, DirectDeps(g, node), inputs)
    requires AllRealised(g, inputs.world, Elements(DirectDeps(g, node)) + (inputs.result.value - (visited + {node})))
    ensures var r := FinishNode(fallback, o, node, g[node].drv, first.outcome, inputs);
            r.result.Ok? ==> Covers(g, start, w, visited, [node], r)
  {
    RealisedCover(g, inputs.world, Elements(DirectDeps(g, node)) + (inputs.result.value - (visited + {node})), {},
                  Elements(DirectDeps(g, node)));
    UnavailableBuilds(fallback, o, node, g[node].drv, inputs);
    if o.build(inputs.world.trace, node).Ok? {
      assert Covers(g, start, w, visited + {node}, DirectDeps(g, node), inputs);
      BuildAccounted(o, g, start, w, visited, node, inputs);
    }
  }

  lemma UnavailableBuilds(fallback: Fallback, o: Outside, node: StorePath, drv: Derivation, inputs: Progress)
    requires Bounded(o) && inputs.result.Ok?
    ensures var r := FinishNode(fallback, o, node, drv, ClosureUnavailable, inputs);
            if o.build(inputs.world.trace, node).Ok?
            then r == Progress(inputs.result, AfterReport(o, AfterBuild(o, inputs.world, node, drv), Built, drv))
            else r.result.Err?
  {
  }

  /** The build that follows the inputs. */
  lemma BuildAccounted(o: Outside, g: DepGraph, start: Store, w: World, visited: set<StorePath>, node: StorePath,
                       inputs: Progress)
    requires Offline(o) && DistinctOutputs(g) && node in g && node !in visited && inputs.result.Ok?
    requires Accounted(g, start, w, visited) && !OutputsValid(g, w.store, node)
    requires Covers(g, start, w, visited + {node}, DirectDeps(g, node), inputs)
    requires AllRealised(g, inputs.world, Elements(DirectDeps(g, node)))
    requires o.build(inputs.world.trace, node).Ok?
    ensures var w' := AfterReport(o, AfterBuild(o, inputs.world, node, g[node].drv), Built, g[node].drv);
            Covers(g, start, w, visited, [node], Progress(inputs.result, w'))
  {
    var w1 := AfterBuild(o, inputs.world, node, g[node].drv);
    NewBuildsReached(g, start, w, visited, node, inputs);
    NewNodesBuilt(g, start, visited, node, inputs);
    BuildKeepsAccount(o, g, start, inputs.world, inputs.result.value, node);
    AccountedLater(g, start, w1, AfterReport(o, w1, Built, g[node].drv), inputs.result.value, inputs.result.value);
  }

  lemma BuildKeepsAccount(o: Outside, g: DepGraph, start: Store, w: World, seen: set<StorePath>, node: StorePath)
    requires Offline(o) && DistinctOutputs(g) && Pending(g, start, node) && node in seen
    requires Accounted(g, start, w, seen) && node !in BuiltNodes(w.trace)
    requires AllRealised(g, w, Elements(DirectDeps(g, node)))
    requires o.build(w.trace, node).Ok?
    ensures var w' := AfterBuild(o, w, node, g[node].drv);
            && Accounted(g, start, w', seen) && BuiltNodes(w'.trace) == BuiltNodes(w.trace) + [node]
            && Unchanged(w', AfterReport(o, w', Built, g[node].drv))
  {
    var w' := AfterBuild(o, w, node, g[node].drv);
    BuildRecorded(o, g, start, w, node);
    DependenciesBuilt(g, start, w, seen, node);
    BuiltAppended(g, start, BuiltNodes(w.trace), node);
    AccountedAppended(g, start, w, w', seen, node);
    ElapseUnchanged(o, w', Report(Built, g[node].drv));
  }

  lemma AccountedAppended(g: DepGraph, start: Store, w: World, w': World, seen: set<StorePath>, node: StorePath)
    requires Accounted(g, start, w, seen) && Pending(g, start, node) && node in seen && node !in BuiltNodes(w.trace)
    requires BuiltNodes(w'.trace) == BuiltNodes(w.trace) + [node]
    requires w'.store.Keys == start.Keys + OutputsOf(g, BuiltNodes(w'.trace))
    requires SuccessorsFirst(PendingGraph(g, start), BuiltNodes(w.trace) + [node])
    ensures Accounted(g, start, w', seen)
  {
    var built := BuiltNodes(w.trace);
    assert Elements(built + [node]) == Elements(built) + {node};
    assert NoDuplicates(built + [node]);
  }

  lemma BuildRecorded(o: Outside, g: DepGraph, start: Store, w: World, node: StorePath)
    requires Offline(o) && node in g && o.build(w.trace, node).Ok?
    requires w.store.Keys == start.Keys + OutputsOf(g, BuiltNodes(w.trace))
    ensures var w' := AfterBuild(o, w, node, g[node].drv);
            && BuiltNodes(w'.trace) == BuiltNodes(w.trace) + [node]
            && w'.store.Keys == start.Keys + OutputsOf(g, BuiltNodes(w'.trace))
  {
    var paths := g[node].drv.OutputPaths();
    BuiltStep(w.trace, Build(node, true, w.store));
    assert BuildRows(o, w, paths).Keys == Elements(paths);
    var built := BuiltNodes(w.trace);
    assert (built + [node])[..|built|] == built;
  }

  /** When a node is built, what it depends on among the pending was built. */
  lemma DependenciesBuilt(g: DepGraph, start: Store, w: World, seen: set<StorePath>, node: StorePath)
    requires DistinctOutputs(g) && Accounted(g, start, w, seen)
    requires AllRealised(g, w, Elements(DirectDeps(g, node)))
    ensures forall d :: Edge(PendingGraph(g, start), node, d) ==> d in BuiltNodes(w.trace)
  {
    forall d | Edge(PendingGraph(g, start), node, d)
      ensures d in BuiltNodes(w.trace)
    {
      assert d in Elements(DirectDeps(g, node));
      RealisedWasBuilt(g, start, w, seen, d);
    }
  }

  lemma BuiltAppended(g: DepGraph, start: Store, built: seq<StorePath>, node: StorePath)
    requires SuccessorsFirst(PendingGraph(g, start), built)
    requires forall d :: Edge(PendingGraph(g, start), node, d) ==> d in built
    ensures SuccessorsFirst(PendingGraph(g, start), built + [node])
  {
    forall i, d | 0 <= i < |built + [node]| && Edge(PendingGraph(g, start), (built + [node])[i], d)
      ensures d in (built + [node])[..i]
    {
      assert (built + [node])[..i] == built[..i];
      assert i == |built| ==> built[..i] == built;
    }
  }

  /** What the inputs built is reached through the node. */
  lemma NewBuildsReached(g: DepGraph, start: Store, w: World, visited: set<StorePath>, node: StorePath,
                         inputs: Progress)
    requires inputs.result.Ok? && Pending(g, start, node)
    requires Covers(g, start, w, visited + {node}, DirectDeps(g, node), inputs)
    ensures ReachedFrom(g, start, [node], node)
    ensures forall n :: n in BuiltNodes(inputs.world.trace) && n !in BuiltNodes(w.trace) ==>
              n !in visited && n != node && ReachedFrom(g, start, [node], n)
  {
    var pg := PendingGraph(g, start);
    ReachesSelf(pg, node);
    assert node in [node];
    forall n | n in BuiltNodes(inputs.world.trace) && n !in BuiltNodes(w.trace)
      ensures n !in visited && n != node && ReachedFrom(g, start, [node], n)
    {
      assert ReachedFrom(g, start, DirectDeps(g, node), n);
      var a :| a in DirectDeps(g, node) && Reaches(pg, a, n);
      ReachedIsNode(pg, a, n);
      ReachesStep(pg, node, node, a);
      ReachesTransitive(pg, node, a, n);
    }
  }

  lemma NewNodesBuilt(g: DepGraph, start: Store, visited: set<StorePath>, node: StorePath, inputs: Progress)
    requires inputs.result.Ok? && node in g
    requires forall a :: a in DirectDeps(g, node) && Pending(g, start, a) ==> a in inputs.result.value
    requires forall n :: n in inputs.result.value - (visited + {node}) && Pending(g, start, n) ==>
               n in BuiltNodes(inputs.world.trace) && DependenciesSeen(g, start, n, inputs.result.value)
    ensures forall n :: n in inputs.result.value - visited && Pending(g, start, n) ==>
              n in BuiltNodes(inputs.world.trace) + [node] && DependenciesSeen(g, start, n, inputs.result.value)
  {
  }

  lemma {:induction false} RealiseAllOffline(fallback: Fallback, o: Outside, g: DepGraph, start: Store, w: World,
                                             visited: set<StorePath>, nodes: seq<StorePath>, rank: nat)
    requires Bounded(o) && Offline(o) && Acyclic(Dependencies(g)) && DistinctOutputs(g)
    requires BuildsReady(g, w.trace) && VisitedRealised(g, w, visited, rank) && RankBelow(g, Elements(nodes), rank)
    requires Accounted(g, start, w, visited)
    ensures var r := RealiseAll(fallback, o, g, w, visited, nodes);
            r.result.Ok? ==> Covers(g, start, w, visited, nodes, r)
    decreases |g.Keys - visited|, 1, |nodes|, 0
  {
    if nodes != [] {
      OneOfAllReady(fallback, o, g, w, visited, nodes[0], rank);
      OneOfAllOffline(fallback, o, g, start, w, visited, nodes[0], rank);
      var one := RealiseNode(fallback, o, g, w, visited, nodes[0]);
      if one.result.Ok? {
        SubsetSize(g.Keys - one.result.value, g.Keys - visited);
        RestOfAllOffline(fallback, o, g, start, w, visited, nodes, rank, one);
        assert RealiseAll(fallback, o, g, w, visited, nodes) ==
               RealiseAll(fallback, o, g, one.world, one.result.value, nodes[1..]);
      }
    }
  }

  lemma {:induction false} OneOfAllOffline(fallback: Fallback, o: Outside, g: DepGraph, start: Store, w: World,
                                           visited: set<StorePath>, n: StorePath, rank: nat)
    requires Bounded(o) && Offline(o) && Acyclic(Dependencies(g)) && DistinctOutputs(g)
    requires BuildsReady(g, w.trace) && VisitedRealised(g, w, visited, rank)
    requires n in g ==> Rank(Dependencies(g), n) < rank
    requires Accounted(g, start, w, visited)
    ensures var r := RealiseNode(fallback, o, g, w, visited, n);
            r.result.Ok? ==> Covers(g, start, w, visited, [n], r)
    decreases |g.Keys - visited|, 1, 0, 0
  {
    if n in g {
      VisitedLater(g, w, w, visited, visited, rank, Rank(Dependencies(g), n) + 1);
      RealiseNodeOffline(fallback, o, g, start, w, visited, n);
    }
  }

  lemma {:induction false} RestOfAllOffline(fallback: Fallback, o: Outside, g: DepGraph, start: Store, w: World,
                                            visited: set<StorePath>, nodes: seq<StorePath>, rank: nat, one: Progress)
    requires Bounded(o) && Offline(o) && Acyclic(Dependencies(g)) && DistinctOutputs(g)
    requires |nodes| > 0 && one.result.Ok? && RankBelow(g, Elements(nodes), rank)
    requires visited <= one.result.value && |g.Keys - one.result.value| <= |g.Keys - visited|
    requires NodeReady(g, w, visited, {nodes[0]}, one) && VisitedRealised(g, one.world, one.result.value, rank)
    requires Covers(g, start, w, visited, [nodes[0]], one)
    ensures var r := RealiseAll(fallback, o, g, one.world, one.result.value, nodes[1..]);
            r.result.Ok? ==> Covers(g, start, w, visited, nodes, r)
    decreases |g.Keys - visited|, 1, |nodes| - 1, 1
  {
    RankBelowSubset(g, Elements(nodes), Elements(nodes[1..]), rank);
    RealiseAllOffline(fallback, o, g, start, one.world, one.result.value, nodes[1..], rank);
    var r := RealiseAll(fallback, o, g, one.world, one.result.value, nodes[1..]);
    if r.result.Ok? {
      CoversTogether(g, start, w, visited, nodes, one, r);
    }
  }

  lemma CoversTogether(g: DepGraph, start: Store, w: World, visited: set<StorePath>, nodes: seq<StorePath>,
                       one: Progress, r: Progress)
    requires |nodes| > 0 && one.result.Ok? && r.result.Ok?
    requires Covers(g, start, w, visited, [nodes[0]], one)
    requires Covers(g, start, one.world, one.result.value, nodes[1..], r)
    ensures Covers(g, start, w, visited, nodes, r)
  {
    assert nodes == [nodes[0]] + nodes[1..];
    forall n | n in BuiltNodes(r.world.trace) && n !in BuiltNodes(w.trace)
      ensures n !in visited && ReachedFrom(g, start, nodes, n)
    {
      if n in BuiltNodes(one.world.trace) {
        assert ReachedFrom(g, start, [nodes[0]], n);
      } else {
        assert ReachedFrom(g, start, nodes[1..], n);
      }
    }
    forall n | n in r.result.value - visited && Pending(g, start, n)
      ensures n in BuiltNodes(r.world.trace) && DependenciesSeen(g, start, n, r.result.value)
    {
      if n in one.result.value {
        assert n in one.result.value - visited;
        assert n in Elements(BuiltNodes(one.world.trace));
      }
    }
  }

  /** With no cache and no shared output paths, a successful run builds exactly
      the derivations reached from the root through pending ones, each once, and
      each after every one it depends on. */
  lemma OfflineBuildsExactly(fallback: Fallback, o: Outside, g: DepGraph, start: Store, root: StorePath)
    requires Bounded(o) && Offline(o) && Acyclic(Dependencies(g)) && DistinctOutputs(g)
    ensures var r := Realise(fallback, o, g, start, root);
            var built := BuiltNodes(r.world.trace);
            r.result.Ok? ==>
              && NoDuplicates(built)
              && (forall n :: n in built <==> Reaches(PendingGraph(g, start), root, n))
              && SuccessorsFirst(PendingGraph(g, start), built)
  {
    var w0 := World(start, []);
    RealiseNodeOffline(fallback, o, g, start, w0, {}, root);
    var r := Realise(fallback, o, g, start, root);
    if r.result.Ok? {
      BuiltIsReached(g, start, w0, root, r);
    }
  }

  lemma BuiltIsReached(g: DepGraph, start: Store, w0: World, root: StorePath, r: Progress)
    requires r.result.Ok? && w0.trace == [] && Covers(g, start, w0, {}, [root], r)
    ensures forall n :: n in BuiltNodes(r.world.trace) <==> Reaches(PendingGraph(g, start), root, n)
  {
    var pg, built := PendingGraph(g, start), BuiltNodes(r.world.trace);
    forall n | n in built
      ensures Reaches(pg, root, n)
    {
      assert ReachedFrom(g, start, [root], n);
    }
    forall x, y | x in Elements(built) && Edge(pg, x, y)
      ensures y in Elements(built)
    {
      assert x in r.result.value - {};
      assert DependenciesSeen(g, start, x, r.result.value);
      assert y in DirectDeps(g, x) && y in r.result.value - {};
    }
    forall n | Reaches(pg, root, n)
      ensures n in built
    {
      ReachedIsNode(pg, root, n);
      assert root in r.result.value - {};
      ClosedHoldsReachable(pg, Elements(built), root);
    }
  }
}
