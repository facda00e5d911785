/** What every run of `Realise` over an acyclic graph keeps. */
module RealiseSafety {
  import opened Basics
  import opened Derivations
  import opened Digraph
  import opened DependencyGraph
  import opened Realisation
  import opened ClosureSafety

  /** Every output of a derivation in the graph is valid; a path outside the
      graph has nothing to realise. */
  ghost predicate OutputsValid(g: DepGraph, store: Store, n: StorePath) {
    n in g ==> Elements(g[n].drv.OutputPaths()) <= store.Keys
  }

  /** A build is of a node of the graph, issued only once every direct dependency in the graph is realised. */
  ghost predicate BuildReady(g: DepGraph, e: Event) {
    e.Build? ==> e.node in g && forall d :: d in DirectDeps(g, e.node) ==> OutputsValid(g, e.before, d)
  }

  ghost predicate BuildsReady(g: DepGraph, t: Trace) {
    forall i :: 0 <= i < |t| ==> BuildReady(g, t[i])
  }

  /** A trace gained queries and fetches only. */
  ghost predicate OnlySubstitutes(w: World, w': World) {
    Grows(w, w') && forall i :: |w.trace| <= i < |w'.trace| ==> w'.trace[i].Query? || w'.trace[i].Fetch?
  }

  lemma OnlySubstitutesTransitive(a: World, b: World, c: World)
    requires OnlySubstitutes(a, b) && OnlySubstitutes(b, c)
    ensures OnlySubstitutes(a, c)
  {
    GrowsTransitive(a, b, c);
  }

  lemma ElapseSubstitutes(o: Outside, w: World, e: Event, registered: Store)
    requires e.Query? || e.Fetch?
    ensures OnlySubstitutes(w, Elapse(o, w, e, registered))
  {
    ElapseGrows(o, w, e, registered);
  }

  lemma {:induction false} AskAllSubstitutes(o: Outside, w: World, paths: seq<StorePath>)
    ensures OnlySubstitutes(w, AskAll(o, w, paths).world)
    decreases |paths|
  {
    if paths != [] {
      var w1 := AfterQuery(o, w, paths[0]);
      ElapseSubstitutes(o, w, Query(paths[0]), map[]);
      AskAllSubstitutes(o, w1, paths[1..]);
      OnlySubstitutesTransitive(w, w1, AskAll(o, w1, paths[1..]).world);
    }
  }

  lemma {:induction false} ClosureOfSubstitutes(o: Outside, w: World, visited: set<StorePath>, paths: seq<StorePath>)
    requires Bounded(o)
    ensures OnlySubstitutes(w, ClosureOf(o, w, visited, paths).world)
    decreases |o.universe - visited|, 1, 0
  {
    var missing := Missing(w, paths);
    var asked := AskAll(o, w, missing);
    AskAllSubstitutes(o, w, missing);
    if missing != [] && asked.answer.Ok? && asked.answer.value.Some? {
      AskedAreBounded(o, w, missing);
      ReferencesFirstSubstitutes(o, asked.world, visited, References(asked, missing));
      var held := ReferencesFirst(o, asked.world, visited, References(asked, missing)).world;
      OnlySubstitutesTransitive(w, asked.world, held);
      var outcome := FetchAnswer(o, held, missing);
      ElapseSubstitutes(o, held, Fetch(missing, outcome, held.store), FetchRows(o, missing, outcome));
      OnlySubstitutesTransitive(w, held, AfterFetch(o, held, missing));
    }
  }

  lemma {:induction false} ReferencesFirstSubstitutes(o: Outside, w: World, visited: set<StorePath>,
                                                      references: seq<StorePath>)
    requires Bounded(o) && Elements(references) <= o.universe
    ensures OnlySubstitutes(w, ReferencesFirst(o, w, visited, references).world)
    decreases |o.universe - visited|, 0, |references|
  {
    if references != [] {
      var r, rest := references[0], references[1..];
      if r in visited {
        ReferencesFirstSubstitutes(o, w, visited, rest);
      } else {
        Shrinks(o, visited, r);
        ClosureOfSubstitutes(o, w, visited + {r}, [r]);
        var a := ClosureOf(o, w, visited + {r}, [r]);
        SubsetSize(o.universe - a.visited, o.universe - (visited + {r}));
        if a.outcome.ClosureComplete? {
          ReferencesFirstSubstitutes(o, a.world, a.visited, rest);
          OnlySubstitutesTransitive(w, a.world, ReferencesFirst(o, a.world, a.visited, rest).world);
        }
      }
    }
  }

  lemma SubstituteFacts(o: Outside, g: DepGraph, w: World, node: StorePath)
    requires Bounded(o) && node in g && BuildsReady(g, w.trace)
    ensures var a := SubstituteClosure(o, w, g[node].drv.OutputPaths());
            && Grows(w, a.world) && BuildsReady(g, a.world.trace)
            && (a.outcome.ClosureComplete? ==> OutputsValid(g, a.world.store, node))
  {
    var paths := g[node].drv.OutputPaths();
    ClosureOfSubstitutes(o, w, Elements(paths), paths);
    CompleteIsValid(o, w, Elements(paths), paths);
  }

  /** Every visited node is realised, or an ancestor on the current path,
      which ranks at least `rank`. */
  ghost predicate VisitedRealised(g: DepGraph, w: World, visited: set<StorePath>, rank: nat) {
    forall v :: v in visited ==> OutputsValid(g, w.store, v) || Rank(Dependencies(g), v) >= rank
  }

  ghost predicate AllRealised(g: DepGraph, w: World, nodes: set<StorePath>) {
    forall n :: n in nodes ==> OutputsValid(g, w.store, n)
  }

  lemma RealisedLater(g: DepGraph, w: World, w': World, nodes: set<StorePath>)
    requires AllRealised(g, w, nodes) && Grows(w, w')
    ensures AllRealised(g, w', nodes)
  {
    forall n | n in nodes
      ensures OutputsValid(g, w'.store, n)
    {
      assert OutputsValid(g, w.store, n);
    }
  }

  lemma VisitedLater(g: DepGraph, w: World, w': World, visited: set<StorePath>, deeper: set<StorePath>, rank: nat,
                     rank': nat)
    requires VisitedRealised(g, w, visited, rank) && Grows(w, w') && rank' <= rank
    requires forall v :: v in deeper - visited ==> OutputsValid(g, w'.store, v) || Rank(Dependencies(g), v) >= rank'
    ensures VisitedRealised(g, w', deeper, rank')
  {
    forall v | v in deeper
      ensures OutputsValid(g, w'.store, v) || Rank(Dependencies(g), v) >= rank'
    {
      if v in visited {
        assert OutputsValid(g, w.store, v) || Rank(Dependencies(g), v) >= rank;
      }
    }
  }

  /** What one node's realisation leaves: builds issued in time and, on
      success, the node and every newly visited one realised. */
  ghost predicate NodeReady(g: DepGraph, w: World, visited: set<StorePath>, nodes: set<StorePath>, r: Progress) {
    && Grows(w, r.world) && BuildsReady(g, r.world.trace)
    && (r.result.Ok? ==> AllRealised(g, r.world, nodes + (r.result.value - visited)))
  }

  lemma {:induction false} RealiseNodeReady(fallback: Fallback, o: Outside, g: DepGraph, w: World,
                                            visited: set<StorePath>, node: StorePath)
    requires Bounded(o) && Acyclic(Dependencies(g)) && BuildsReady(g, w.trace)
    requires VisitedRealised(g, w, visited, Rank(Dependencies(g), node) + 1)
    ensures NodeReady(g, w, visited, {node}, RealiseNode(fallback, o, g, w, visited, node))
    decreases |g.Keys - visited|, 0, 2
  {
    if node in visited {
      assert OutputsValid(g, w.store, node);
    } else if node in g {
      var drv := g[node].drv;
      if AllOutputsValid(w, drv) {
        ReportReady(o, g, w, AlreadyValid, drv);
      } else {
        SubstituteFacts(o, g, w, node);
        var first := SubstituteClosure(o, w, drv.OutputPaths());
        if first.outcome.ClosureComplete? {
          ReportReady(o, g, first.world, Substituted, drv);
          GrowsTransitive(w, first.world, AfterReport(o, first.world, Substituted, drv));
        } else if SubstitutionStop(fallback, node, first.outcome).None? {
          BuildFromInputsReady(fallback, o, g, w, visited, node, first);
        }
      }
    }
  }

  lemma {:induction false} BuildFromInputsReady(fallback: Fallback, o: Outside, g: DepGraph, w: World,
                                                visited: set<StorePath>, node: StorePath, first: Attempt)
    requires Bounded(o) && Acyclic(Dependencies(g)) && node in g && node !in visited
    requires VisitedRealised(g, w, visited, Rank(Dependencies(g), node) + 1)
    requires Grows(w, first.world) && BuildsReady(g, first.world.trace) && !first.outcome.ClosureComplete?
    ensures NodeReady(g, w, visited, {node}, BuildFromInputs(fallback, o, g, visited, node, first))
    decreases |g.Keys - visited|, 0, 1
  {
    assert g.Keys - (visited + {node}) == (g.Keys - visited) - {node};
    var seen, rank := visited + {node}, Rank(Dependencies(g), node);
    VisitedLater(g, w, first.world, visited, seen, rank + 1, rank);
    DependenciesRankLower(g, node);
    RealiseAllReady(fallback, o, g, first.world, seen, DirectDeps(g, node), rank);
    var inputs := RealiseAll(fallback, o, g, first.world, seen, DirectDeps(g, node));
    GrowsTransitive(w, first.world, inputs.world);
    if inputs.result.Ok? {
      FinishedNodeReady(fallback, o, g, w, visited, node, first.outcome, inputs);
    }
  }

  ghost predicate RankBelow(g: DepGraph, nodes: set<StorePath>, rank: nat) {
    forall n :: n in nodes && n in g ==> Rank(Dependencies(g), n) < rank
  }

  lemma RankBelowSubset(g: DepGraph, nodes: set<StorePath>, fewer: set<StorePath>, rank: nat)
    requires RankBelow(g, nodes, rank) && fewer <= nodes
    ensures RankBelow(g, fewer, rank)
  {
  }

  /** In an acyclic graph the direct dependencies rank below their node. */
  lemma DependenciesRankLower(g: DepGraph, node: StorePath)
    requires Acyclic(Dependencies(g))
    ensures RankBelow(g, Elements(DirectDeps(g, node)), Rank(Dependencies(g), node))
  {
    forall d | d in DirectDeps(g, node) && d in g
      ensures Rank(Dependencies(g), d) < Rank(Dependencies(g), node)
    {
      RankFalls(Dependencies(g), node, d);
    }
  }

  lemma FinishedNodeReady(fallback: Fallback, o: Outside, g: DepGraph, w: World, visited: set<StorePath>,
                          node: StorePath, first: ClosureOutcome, inputs: Progress)
    requires Bounded(o) && node in g && inputs.result.Ok? && !first.ClosureComplete?
    requires Grows(w, inputs.world) && BuildsReady(g, inputs.world.trace)
    requires AllRealised(g, inputs.world, Elements(DirectDeps(g, node)) + (inputs.result.value - (visited + {node})))
    ensures NodeReady(g, w, visited, {node}, FinishNode(fallback, o, node, g[node].drv, first, inputs))
  {
    var deeper := inputs.result.value - (visited + {node});
    RealisedCover(g, inputs.world, Elements(DirectDeps(g, node)) + deeper, {}, Elements(DirectDeps(g, node)));
    RealisedCover(g, inputs.world, Elements(DirectDeps(g, node)) + deeper, {}, deeper);
    FinishNodeReady(fallback, o, g, node, first, inputs);
    var r := FinishNode(fallback, o, node, g[node].drv, first, inputs);
    GrowsTransitive(w, inputs.world, r.world);
    RealisedLater(g, inputs.world, r.world, deeper);
    if r.result.Ok? {
      RealisedCover(g, r.world, {node}, deeper, {node} + (r.result.value - visited));
    }
  }

  lemma RealisedCover(g: DepGraph, w: World, a: set<StorePath>, b: set<StorePath>, c: set<StorePath>)
    requires AllRealised(g, w, a) && AllRealised(g, w, b) && c <= a + b
    ensures AllRealised(g, w, c)
  {
  }

  lemma BuildReadyStep(o: Outside, g: DepGraph, w: World, node: StorePath)
    requires node in g && BuildsReady(g, w.trace)
    requires AllRealised(g, w, Elements(DirectDeps(g, node)))
    ensures var w' := AfterBuild(o, w, node, g[node].drv);
            && Grows(w, w') && BuildsReady(g, w'.trace)
            && (o.build(w.trace, node).Ok? ==> OutputsValid(g, w'.store, node))
  {
    var ok := o.build(w.trace, node).Ok?;
    var drv := g[node].drv;
    assert BuildReady(g, Build(node, ok, w.store));
    ElapseGrows(o, w, Build(node, ok, w.store), if ok then BuildRows(o, w, drv.OutputPaths()) else map[]);
    assert BuildRows(o, w, drv.OutputPaths()).Keys == Elements(drv.OutputPaths());
  }

  lemma ReportReady(o: Outside, g: DepGraph, w: World, status: Realised, drv: Derivation)
    requires BuildsReady(g, w.trace)
    ensures Grows(w, AfterReport(o, w, status, drv)) && BuildsReady(g, AfterReport(o, w, status, drv).trace)
  {
    ElapseGrows(o, w, Report(status, drv), map[]);
  }

  lemma FinishNodeReady(fallback: Fallback, o: Outside, g: DepGraph, node: StorePath, first: ClosureOutcome,
                        inputs: Progress)
    requires Bounded(o) && node in g && inputs.result.Ok? && !first.ClosureComplete?
    requires BuildsReady(g, inputs.world.trace)
    requires AllRealised(g, inputs.world, Elements(DirectDeps(g, node)))
    ensures var r := FinishNode(fallback, o, node, g[node].drv, first, inputs);
            && Grows(inputs.world, r.world) && BuildsReady(g, r.world.trace)
            && (r.result.Ok? ==> OutputsValid(g, r.world.store, node))
  {
    var drv, w := g[node].drv, inputs.world;
    SubstituteFacts(o, g, w, node);
    var retried :=
      if first.ClosureIncomplete? then SubstituteClosure(o, w, drv.OutputPaths())
      else Attempt(first, {}, w);
    assert Grows(w, retried.world) && BuildsReady(g, retried.world.trace);
    if retried.outcome.ClosureComplete? {
      ReportReady(o, g, retried.world, Substituted, drv);
      GrowsTransitive(w, retried.world, AfterReport(o, retried.world, Substituted, drv));
    } else if SubstitutionStop(fallback, node, retried.outcome).None? {
      RealisedLater(g, w, retried.world, Elements(DirectDeps(g, node)));
      BuildReadyStep(o, g, retried.world, node);
      var built := AfterBuild(o, retried.world, node, drv);
      GrowsTransitive(w, retried.world, built);
      ReportReady(o, g, built, Built, drv);
      GrowsTransitive(w, built, AfterReport(o, built, Built, drv));
    }
  }

  lemma {:induction false} RealiseAllReady(fallback: Fallback, o: Outside, g: DepGraph, w: World,
                                           visited: set<StorePath>, nodes: seq<StorePath>, rank: nat)
    requires Bounded(o) && Acyclic(Dependencies(g)) && BuildsReady(g, w.trace)
    requires VisitedRealised(g, w, visited, rank)
    requires RankBelow(g, Elements(nodes), rank)
    ensures NodeReady(g, w, visited, Elements(nodes), RealiseAll(fallback, o, g, w, visited, nodes))
    decreases |g.Keys - visited|, 1, |nodes|, 0
  {
    if nodes != [] {
      OneOfAllReady(fallback, o, g, w, visited, nodes[0], rank);
      var one := RealiseNode(fallback, o, g, w, visited, nodes[0]);
      if one.result.Ok? {
        SubsetSize(g.Keys - one.result.value, g.Keys - visited);
        RestOfAllReady(fallback, o, g, w, visited, nodes, rank, one);
      }
    }
  }

  lemma {:induction false} RestOfAllReady(fallback: Fallback, o: Outside, g: DepGraph, w: World,
                                          visited: set<StorePath>, nodes: seq<StorePath>, rank: nat, one: Progress)
    requires Bounded(o) && Acyclic(Dependencies(g)) && |nodes| > 0 && one.result.Ok?
    requires RankBelow(g, Elements(nodes), rank)
    requires visited <= one.result.value && |g.Keys - one.result.value| <= |g.Keys - visited|
    requires NodeReady(g, w, visited, {nodes[0]}, one) && VisitedRealised(g, one.world, one.result.value, rank)
    ensures NodeReady(g, w, visited, Elements(nodes),
            RealiseAll(fallback, o, g, one.world, one.result.value, nodes[1..]))
    decreases |g.Keys - visited|, 1, |nodes| - 1, 1
  {
    var deeper := one.result.value;
    RankBelowSubset(g, Elements(nodes), Elements(nodes[1..]), rank);
    RealiseAllReady(fallback, o, g, one.world, deeper, nodes[1..], rank);
    var r := RealiseAll(fallback, o, g, one.world, deeper, nodes[1..]);
    GrowsTransitive(w, one.world, r.world);
    if r.result.Ok? {
      RealisedTogether(g, one.world, r.world, visited, deeper, r.result.value, nodes);
    }
  }

  lemma RealisedTogether(g: DepGraph, w: World, w': World, visited: set<StorePath>, deeper: set<StorePath>,
                         last: set<StorePath>, nodes: seq<StorePath>)
    requires |nodes| > 0 && Grows(w, w')
    requires AllRealised(g, w, {nodes[0]} + (deeper - visited))
    requires AllRealised(g, w', Elements(nodes[1..]) + (last - deeper))
    ensures AllRealised(g, w', Elements(nodes) + (last - visited))
  {
    RealisedLater(g, w, w', {nodes[0]} + (deeper - visited));
    assert Elements(nodes) == {nodes[0]} + Elements(nodes[1..]);
  }

  lemma {:induction false} OneOfAllReady(fallback: Fallback, o: Outside, g: DepGraph, w: World,
                                         visited: set<StorePath>, n: StorePath, rank: nat)
    requires Bounded(o) && Acyclic(Dependencies(g)) && BuildsReady(g, w.trace)
    requires VisitedRealised(g, w, visited, rank)
    requires n in g ==> Rank(Dependencies(g), n) < rank
    ensures var r := RealiseNode(fallback, o, g, w, visited, n);
            && NodeReady(g, w, visited, {n}, r)
            && (r.result.Ok? ==> VisitedRealised(g, r.world, r.result.value, rank))
    decreases |g.Keys - visited|, 1, 0, 0
  {
    if n in g {
      VisitedLater(g, w, w, visited, visited, rank, Rank(Dependencies(g), n) + 1);
      RealiseNodeReady(fallback, o, g, w, visited, n);
    }
    var r := RealiseNode(fallback, o, g, w, visited, n);
    if r.result.Ok? {
      VisitedLater(g, w, r.world, visited, r.result.value, rank, rank);
    }
  }

  /** In every run over an acyclic graph, whatever the caches and the builder
      answer, a derivation is built only once every output of every direct
      dependency is valid, and success leaves every root output valid. */
  lemma RealiseBuildsInputsFirst(fallback: Fallback, o: Outside, g: DepGraph, store: Store, root: StorePath)
    requires Bounded(o) && Acyclic(Dependencies(g))
    ensures var r := Realise(fallback, o, g, store, root);
            && BuildsReady(g, r.world.trace)
            && (r.result.Ok? ==> OutputsValid(g, r.world.store, root))
  {
    RealiseNodeReady(fallback, o, g, World(store, []), {}, root);
  }
}
