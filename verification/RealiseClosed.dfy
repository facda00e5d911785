/** A run keeps the store closed under references at every step, and fetches
    references first unless it meets a cycle of them. */
module RealiseClosed {
  import opened Basics
  import opened Derivations
  import opened Digraph
  import opened DependencyGraph
  import opened Realisation
  import opened ClosureSafety
  import opened FetchOrder
  import opened ReferenceCycles
  import opened RealiseOutcomes

  // ---- The store stays closed -------------------------------------------

  lemma BuildKeepsClosed(o: Outside, w: World, node: StorePath, drv: Derivation)
    requires OthersClosed(o) && AlwaysClosed(w)
    ensures AlwaysClosed(AfterBuild(o, w, node, drv))
  {
    var ok := o.build(w.trace, node).Ok?;
    var rows := if ok then BuildRows(o, w, drv.OutputPaths()) else map[];
    assert ok ==> rows.Keys == Elements(drv.OutputPaths());
    ElapseKeepsClosed(o, w, Build(node, ok, w.store), rows);
  }

  lemma ReportKeepsClosed(o: Outside, w: World, status: Realised, drv: Derivation)
    requires OthersClosed(o) && AlwaysClosed(w)
    ensures AlwaysClosed(AfterReport(o, w, status, drv))
  {
    ElapseKeepsClosed(o, w, Report(status, drv), map[]);
  }

  lemma {:induction false} RealiseNodeClosed(fallback: Fallback, o: Outside, g: DepGraph, w: World,
                                             visited: set<StorePath>, node: StorePath)
    requires Bounded(o) && OthersClosed(o) && AlwaysClosed(w)
    ensures AlwaysClosed(RealiseNode(fallback, o, g, w, visited, node).world)
    decreases |g.Keys - visited|, 0, 1
  {
    if node !in visited && node in g {
      var drv := g[node].drv;
      if AllOutputsValid(w, drv) {
        ReportKeepsClosed(o, w, AlreadyValid, drv);
      } else {
        SubstituteKeepsClosed(o, w, drv.OutputPaths());
        var first := SubstituteClosure(o, w, drv.OutputPaths());
        if first.outcome.ClosureComplete? {
          ReportKeepsClosed(o, first.world, Substituted, drv);
        } else if SubstitutionStop(fallback, node, first.outcome).None? {
          BuildFromInputsClosed(fallback, o, g, visited, node, first);
        }
      }
    }
  }

  lemma {:induction false} BuildFromInputsClosed(fallback: Fallback, o: Outside, g: DepGraph, visited: set<StorePath>,
                                                 node: StorePath, first: Attempt)
    requires Bounded(o) && OthersClosed(o) && AlwaysClosed(first.world) && node in g && node !in visited
    ensures AlwaysClosed(BuildFromInputs(fallback, o, g, visited, node, first).world)
    decreases |g.Keys - visited|, 0, 0
  {
    assert g.Keys - (visited + {node}) == (g.Keys - visited) - {node};
    RealiseAllClosed(fallback, o, g, first.world, visited + {node}, DirectDeps(g, node));
    var inputs := RealiseAll(fallback, o, g, first.world, visited + {node}, DirectDeps(g, node));
    if inputs.result.Ok? {
      FinishNodeClosed(fallback, o, node, g[node].drv, first.outcome, inputs);
    }
  }

  lemma FinishNodeClosed(fallback: Fallback, o: Outside, node: StorePath, drv: Derivation, first: ClosureOutcome,
                         inputs: Progress)
    requires Bounded(o) && OthersClosed(o) && inputs.result.Ok? && AlwaysClosed(inputs.world)
    ensures AlwaysClosed(FinishNode(fallback, o, node, drv, first, inputs).world)
  {
    SubstituteKeepsClosed(o, inputs.world, drv.OutputPaths());
    var retried :=
      if first.ClosureIncomplete? then SubstituteClosure(o, inputs.world, drv.OutputPaths())
      else Attempt(first, {}, inputs.world);
    if retried.outcome.ClosureComplete? {
      ReportKeepsClosed(o, retried.world, Substituted, drv);
    } else {
      BuildKeepsClosed(o, retried.world, node, drv);
      ReportKeepsClosed(o, AfterBuild(o, retried.world, node, drv), Built, drv);
    }
  }

  lemma {:induction false} RealiseAllClosed(fallback: Fallback, o: Outside, g: DepGraph, w: World,
                                            visited: set<StorePath>, nodes: seq<StorePath>)
    requires Bounded(o) && OthersClosed(o) && AlwaysClosed(w)
    ensures AlwaysClosed(RealiseAll(fallback, o, g, w, visited, nodes).world)
    decreases |g.Keys - visited|, 1, |nodes|, 0
  {
    if nodes != [] {
      RealiseNodeClosed(fallback, o, g, w, visited, nodes[0]);
      var one := RealiseNode(fallback, o, g, w, visited, nodes[0]);
      if one.result.Ok? {
        SubsetSize(g.Keys - one.result.value, g.Keys - visited);
        RestOfAllClosed(fallback, o, g, visited, nodes, one);
        assert RealiseAll(fallback, o, g, w, visited, nodes) ==
               RealiseAll(fallback, o, g, one.world, one.result.value, nodes[1..]);
      }
    }
  }

  lemma {:induction false} RestOfAllClosed(fallback: Fallback, o: Outside, g: DepGraph, visited: set<StorePath>,
                                           nodes: seq<StorePath>, one: Progress)
    requires Bounded(o) && OthersClosed(o) && |nodes| > 0 && one.result.Ok? && AlwaysClosed(one.world)
    requires |g.Keys - one.result.value| <= |g.Keys - visited|
    ensures AlwaysClosed(RealiseAll(fallback, o, g, one.world, one.result.value, nodes[1..]).world)
    decreases |g.Keys - visited|, 1, |nodes| - 1, 1
  {
    RealiseAllClosed(fallback, o, g, one.world, one.result.value, nodes[1..]);
  }

  /** From a store closed under references, every run, failed ones included,
      leaves the store closed after every step, whatever the caches declare. */
  lemma RealiseKeepsClosed(fallback: Fallback, o: Outside, g: DepGraph, store: Store, root: StorePath)
    requires Bounded(o) && OthersClosed(o) && Closed(store)
    ensures AlwaysClosed(Realise(fallback, o, g, store, root).world)
  {
    RealiseNodeClosed(fallback, o, g, World(store, []), {}, root);
  }

  // ---- References are fetched first -------------------------------------

  /** The outputs of no derivation reached from a node lead to a cycle of declared
      references. */
  ghost predicate MeetsNone(o: Outside, g: DepGraph, node: StorePath) {
    forall n :: Reaches(Dependencies(g), node, n) ==> OutputsMeetNone(o, g, n)
  }

  ghost predicate OutputsMeetNone(o: Outside, g: DepGraph, n: StorePath) {
    n in g ==> !MeetsCycle(o, Elements(g[n].drv.OutputPaths()))
  }

  lemma OwnMeetNone(o: Outside, g: DepGraph, node: StorePath)
    requires MeetsNone(o, g, node)
    ensures OutputsMeetNone(o, g, node)
  {
    if node in g {
      ReachesSelf(Dependencies(g), node);
    }
  }

  lemma InputsMeetNone(o: Outside, g: DepGraph, node: StorePath)
    requires MeetsNone(o, g, node) && node in g
    ensures forall d :: d in DirectDeps(g, node) ==> MeetsNone(o, g, d)
  {
    var dependencies := Dependencies(g);
    forall d, n | d in DirectDeps(g, node) && Reaches(dependencies, d, n)
      ensures OutputsMeetNone(o, g, n)
    {
      ReachedIsNode(dependencies, d, n);
      ReachesSelf(dependencies, node);
      ReachesStep(dependencies, node, node, d);
      ReachesTransitive(dependencies, node, d, n);
    }
  }

  /** What a run of `w` comes to has fetched in order since. */
  ghost predicate OrderedSince(o: Outside, w: World, w': World) {
    Grows(w, w') && FetchesInOrder(o, |w.trace|, w'.trace)
  }

  lemma OrderedTransitive(o: Outside, a: World, b: World, c: World)
    requires OrderedSince(o, a, b) && OrderedSince(o, b, c)
    ensures OrderedSince(o, a, c)
  {
    GrowsTransitive(a, b, c);
    InOrderLater(o, |a.trace|, b.trace, c.trace);
  }

  lemma SubstituteOrdered(o: Outside, w: World, paths: seq<StorePath>)
    requires Honest(o) && !MeetsCycle(o, Elements(paths))
    ensures OrderedSince(o, w, SubstituteClosure(o, w, paths).world)
  {
    ClosureOfGrows(o, w, Elements(paths), paths);
    SubstituteInOrder(o, w, paths);
  }

  lemma ElapseOrdered(o: Outside, w: World, e: Event, registered: Store)
    requires !e.Fetch?
    ensures OrderedSince(o, w, Elapse(o, w, e, registered))
  {
    ElapseGrows(o, w, e, registered);
  }

  lemma ReportOrdered(o: Outside, w: World, w1: World, status: Realised, drv: Derivation)
    requires OrderedSince(o, w, w1)
    ensures OrderedSince(o, w, AfterReport(o, w1, status, drv))
  {
    ElapseOrdered(o, w1, Report(status, drv), map[]);
    OrderedTransitive(o, w, w1, AfterReport(o, w1, status, drv));
  }

  lemma BuildOrdered(o: Outside, w: World, w1: World, node: StorePath, drv: Derivation)
    requires OrderedSince(o, w, w1)
    ensures OrderedSince(o, w, AfterBuild(o, w1, node, drv))
  {
    var ok := o.build(w1.trace, node).Ok?;
    ElapseOrdered(o, w1, Build(node, ok, w1.store), if ok then BuildRows(o, w1, drv.OutputPaths()) else map[]);
    OrderedTransitive(o, w, w1, AfterBuild(o, w1, node, drv));
  }

  lemma {:induction false} RealiseNodeOrdered(fallback: Fallback, o: Outside, g: DepGraph, w: World,
                                              visited: set<StorePath>, node: StorePath)
    requires Honest(o) && MeetsNone(o, g, node)
    ensures OrderedSince(o, w, RealiseNode(fallback, o, g, w, visited, node).world)
    decreases |g.Keys - visited|, 0, 1
  {
    if node !in visited && node in g {
      var drv := g[node].drv;
      OwnMeetNone(o, g, node);
      if AllOutputsValid(w, drv) {
        ReportOrdered(o, w, w, AlreadyValid, drv);
      } else {
        SubstituteOrdered(o, w, drv.OutputPaths());
        var first := SubstituteClosure(o, w, drv.OutputPaths());
        if first.outcome.ClosureComplete? {
          ReportOrdered(o, w, first.world, Substituted, drv);
        } else if SubstitutionStop(fallback, node, first.outcome).None? {
          BuildFromInputsOrdered(fallback, o, g, visited, node, first);
          OrderedTransitive(o, w, first.world, BuildFromInputs(fallback, o, g, visited, node, first).world);
        }
      }
    }
  }

  lemma {:induction false} BuildFromInputsOrdered(fallback: Fallback, o: Outside, g: DepGraph,
                                                  visited: set<StorePath>, node: StorePath, first: Attempt)
    requires Honest(o) && MeetsNone(o, g, node) && node in g && node !in visited
    ensures OrderedSince(o, first.world, BuildFromInputs(fallback, o, g, visited, node, first).world)
    decreases |g.Keys - visited|, 0, 0
  {
    assert g.Keys - (visited + {node}) == (g.Keys - visited) - {node};
    InputsMeetNone(o, g, node);
    RealiseAllOrdered(fallback, o, g, first.world, visited + {node}, DirectDeps(g, node));
    var inputs := RealiseAll(fallback, o, g, first.world, visited + {node}, DirectDeps(g, node));
    if inputs.result.Ok? {
      var drv := g[node].drv;
      OwnMeetNone(o, g, node);
      FinishNodeOrdered(fallback, o, node, drv, first.outcome, inputs);
      OrderedTransitive(o, first.world, inputs.world, FinishNode(fallback, o, node, drv, first.outcome, inputs).world);
    }
  }

  lemma FinishNodeOrdered(fallback: Fallback, o: Outside, node: StorePath, drv: Derivation, first: ClosureOutcome,
                          inputs: Progress)
    requires Honest(o) && inputs.result.Ok? && !MeetsCycle(o, Elements(drv.OutputPaths()))
    ensures OrderedSince(o, inputs.world, FinishNode(fallback, o, node, drv, first, inputs).world)
  {
    var w := inputs.world;
    SubstituteOrdered(o, w, drv.OutputPaths());
    var retried :=
      if first.ClosureIncomplete? then SubstituteClosure(o, w, drv.OutputPaths()) else Attempt(first, {}, w);
    if retried.outcome.ClosureComplete? {
      ReportOrdered(o, w, retried.world, Substituted, drv);
    } else {
      BuildOrdered(o, w, retried.world, node, drv);
      ReportOrdered(o, w, AfterBuild(o, retried.world, node, drv), Built, drv);
    }
  }

  lemma {:induction false} RealiseAllOrdered(fallback: Fallback, o: Outside, g: DepGraph, w: World,
                                             visited: set<StorePath>, nodes: seq<StorePath>)
    requires Honest(o) && forall n :: n in nodes ==> MeetsNone(o, g, n)
    ensures OrderedSince(o, w, RealiseAll(fallback, o, g, w, visited, nodes).world)
    decreases |g.Keys - visited|, 1, |nodes|, 0
  {
    if nodes != [] {
      RealiseNodeOrdered(fallback, o, g, w, visited, nodes[0]);
      var one := RealiseNode(fallback, o, g, w, visited, nodes[0]);
      if one.result.Ok? {
        SubsetSize(g.Keys - one.result.value, g.Keys - visited);
        RestOfAllOrdered(fallback, o, g, w, visited, nodes, one);
        assert RealiseAll(fallback, o, g, w, visited, nodes) ==
               RealiseAll(fallback, o, g, one.world, one.result.value, nodes[1..]);
      }
    }
  }

  lemma {:induction false} RestOfAllOrdered(fallback: Fallback, o: Outside, g: DepGraph, w: World,
                                            visited: set<StorePath>, nodes: seq<StorePath>, one: Progress)
    requires Honest(o) && (forall n :: n in nodes ==> MeetsNone(o, g, n))
    requires |nodes| > 0 && one.result.Ok? && OrderedSince(o, w, one.world)
    requires |g.Keys - one.result.value| <= |g.Keys - visited|
    ensures OrderedSince(o, w, RealiseAll(fallback, o, g, one.world, one.result.value, nodes[1..]).world)
    decreases |g.Keys - visited|, 1, |nodes| - 1, 1
  {
    RealiseAllOrdered(fallback, o, g, one.world, one.result.value, nodes[1..]);
    OrderedTransitive(o, w, one.world, RealiseAll(fallback, o, g, one.world, one.result.value, nodes[1..]).world);
  }

  /** Where no derivation the root reaches has outputs that lead to a cycle of
      declared references, every run issues each fetch only with the references
      outside its batch valid. */
  lemma RealiseInOrder(fallback: Fallback, o: Outside, g: DepGraph, store: Store, root: StorePath)
    requires Honest(o) && MeetsNone(o, g, root)
    ensures FetchesInOrder(o, 0, Realise(fallback, o, g, store, root).world.trace)
  {
    RealiseNodeOrdered(fallback, o, g, World(store, []), {}, root);
  }

  /** With everything on offer, nothing valid and nobody else at work, a run
      fetches in order exactly when its root's outputs lead to no cycle. */
  lemma RealiseOrderIsExact(fallback: Fallback, o: Outside, g: DepGraph, root: StorePath)
    requires root in g && Generous(o, Elements(g[root].drv.OutputPaths()))
    ensures FetchesInOrder(o, 0, Realise(fallback, o, g, map[], root).world.trace)
            <==> !MeetsCycle(o, Elements(g[root].drv.OutputPaths()))
  {
    var w, paths := World(map[], []), g[root].drv.OutputPaths();
    var first := SubstituteClosure(o, w, paths);
    OrderIsExact(o, paths);
    if first.outcome.ClosureComplete? {
      SubstituteOrdered(o, w, paths);
      ReportOrdered(o, w, first.world, Substituted, g[root].drv);
    } else {
      FirstAttemptStays(fallback, o, g, w, root);
      var after := Realise(fallback, o, g, map[], root).world.trace;
      if FetchesInOrder(o, 0, after) {
        InOrderPart(o, 0, first.world.trace, after);
      }
    }
  }

  lemma FirstAttemptStays(fallback: Fallback, o: Outside, g: DepGraph, w: World, root: StorePath)
    requires Bounded(o) && root in g && !AllOutputsValid(w, g[root].drv)
    ensures SubstituteClosure(o, w, g[root].drv.OutputPaths()).world.trace
            <= RealiseNode(fallback, o, g, w, {}, root).world.trace
  {
    var first := SubstituteClosure(o, w, g[root].drv.OutputPaths());
    if !first.outcome.ClosureComplete? && SubstitutionStop(fallback, root, first.outcome).None? {
      BuildFromInputsSettles(fallback, o, g, first.world.trace, {}, root, first);
    }
  }
}
