/** Building a derivation and what it needs (`buildWithDeps` in
    src/Nix/Builder.hs): the graph, the refusal of a cycle, the realisation. */
module BuildDriver {
  import opened Basics
  import opened Derivations
  import opened Digraph
  import opened DependencyGraph
  import opened GraphConstruction
  import opened TopologicalSort
  import opened Realisation
  import opened RealiseSafety
  import opened RealiseOutcomes

  datatype BuildResult =
    | BuildSuccess(output: StorePath)
    | GraphUnreadable(why: Text)
    | CycleRefused
    | Failed(failure: RealiseFailure)
    | NoOutputs

  datatype Run = Run(result: BuildResult, world: World)

  function BuildWithDeps(fallback: Fallback, o: Outside, s: Drvs, store: Store): Run
    requires Bounded(o) && s.Finite()
  {
    var untouched := World(store, []);
    var graph := BuildDepGraph(s);
    if graph.Err? then Run(GraphUnreadable(graph.error), untouched)
    else if TopoSort(graph.value).TopoCycle? then Run(CycleRefused, untouched)
    else
      var r := Realise(fallback, o, graph.value, store, s.root);
      if r.result.Err? then Run(Failed(r.result.error), r.world)
      else if s.rootDrv.outputs == [] then Run(NoOutputs, r.world)
      else Run(BuildSuccess(s.rootDrv.outputs[0].path), r.world)
  }

  /** A build issued once every output of every derivation its own `.drv` names
      is valid. */
  ghost predicate InputsValid(s: Drvs, e: Event) {
    e.Build? ==>
      && s.Drv(e.node).Ok?
      && forall d :: d in s.Drv(e.node).value.inputDrvs ==>
           s.Drv(d).Ok? && Elements(s.Drv(d).value.OutputPaths()) <= e.before.Keys
  }

  ghost predicate CycleReached(s: Drvs) {
    exists a :: OnReachedCycle(s, a)
  }

  /** A derivation the root reaches that depends on itself. */
  ghost predicate OnReachedCycle(s: Drvs, a: StorePath) {
    Reaches(s.References(), s.root, a) && ReachesPast(s.References(), a, a)
  }

  lemma CyclesAreReached(s: Drvs)
    requires s.Finite() && BuildDepGraph(s).Ok?
    ensures Acyclic(Dependencies(BuildDepGraph(s).value)) <==> !CycleReached(s)
  {
    BuildDepGraphIsReachable(s);
    var refs, part := s.References(), Dependencies(BuildDepGraph(s).value);
    forall a | a in part
      ensures a in refs
    {
      ReachedIsNode(refs, s.root, a);
    }
    forall a, b | a in part
      ensures (Edge(part, a, b) <==> Edge(refs, a, b))
    {
      if Edge(refs, a, b) {
        ReachesStep(refs, s.root, a, b);
      }
      if Edge(part, a, b) {
        ReachedIsNode(refs, s.root, b);
      }
    }
    forall a
      ensures ReachesPast(part, a, a) <==> OnReachedCycle(s, a)
    {
      if a in part {
        ClosedPartCycles(part, refs, a);
      }
    }
  }

  /** Over any `.drv` files, caches and builder: nothing is built before all its
      input derivations are realised; a success has every root output valid; and
      a cycle among the derivations the root reaches, and nothing else, is
      refused before anything happens. */
  lemma BuildWithDepsIsSound(fallback: Fallback, o: Outside, s: Drvs, store: Store)
    requires Bounded(o) && s.Finite()
    ensures var run := BuildWithDeps(fallback, o, s, store);
            && (forall i :: 0 <= i < |run.world.trace| ==> InputsValid(s, run.world.trace[i]))
            && (run.result.BuildSuccess? ==> Elements(s.rootDrv.OutputPaths()) <= run.world.store.Keys)
            && (run.result.GraphUnreadable? <==> Unreadable(s))
            && (run.result.CycleRefused? <==> !Unreadable(s) && CycleReached(s))
            && (run.result.GraphUnreadable? || run.result.CycleRefused? ==> run.world == World(store, []))
  {
    BuildDepGraphIsReachable(s);
    if BuildDepGraph(s).Ok? {
      ReadableIsSound(fallback, o, s, BuildDepGraph(s).value, store);
    }
  }

  lemma ReadableIsSound(fallback: Fallback, o: Outside, s: Drvs, g: DepGraph, store: Store)
    requires Bounded(o) && s.Finite() && BuildDepGraph(s) == Ok(g)
    ensures var run := BuildWithDeps(fallback, o, s, store);
            && (forall i :: 0 <= i < |run.world.trace| ==> InputsValid(s, run.world.trace[i]))
            && (run.result.BuildSuccess? ==> Elements(s.rootDrv.OutputPaths()) <= run.world.store.Keys)
            && !run.result.GraphUnreadable?
            && (run.result.CycleRefused? <==> CycleReached(s))
            && (run.result.CycleRefused? ==> run.world == World(store, []))
  {
    TopoSortDecidesCycles(g);
    CyclesAreReached(s);
    if TopoSort(g).TopoSorted? {
      RealisedInOrder(fallback, o, s, g, store);
    }
  }

  lemma RealisedInOrder(fallback: Fallback, o: Outside, s: Drvs, g: DepGraph, store: Store)
    requires Bounded(o) && s.Finite() && BuildDepGraph(s) == Ok(g) && Acyclic(Dependencies(g))
    ensures var r := Realise(fallback, o, g, store, s.root);
            && (forall i :: 0 <= i < |r.world.trace| ==> InputsValid(s, r.world.trace[i]))
            && (r.result.Ok? ==> Elements(s.rootDrv.OutputPaths()) <= r.world.store.Keys)
  {
    BuildDepGraphIsReachable(s);
    RealiseBuildsInputsFirst(fallback, o, g, store, s.root);
    ReachesSelf(s.References(), s.root);
    var t := Realise(fallback, o, g, store, s.root).world.trace;
    forall i | 0 <= i < |t|
      ensures InputsValid(s, t[i])
    {
      ReadyHasInputs(s, g, t[i]);
    }
  }

  lemma ReadyHasInputs(s: Drvs, g: DepGraph, e: Event)
    requires s.Finite() && BuildDepGraph(s) == Ok(g) && BuildReady(g, e)
    ensures InputsValid(s, e)
  {
    BuildDepGraphIsReachable(s);
    if e.Build? {
      ReachedIsNode(s.References(), s.root, e.node);
      forall d | d in s.Drv(e.node).value.inputDrvs
        ensures s.Drv(d).Ok? && Elements(s.Drv(d).value.OutputPaths()) <= e.before.Keys
      {
        assert d in Elements(g[e.node].deps);
        assert Edge(s.References(), e.node, d);
        ReachesStep(s.References(), s.root, e.node, d);
        assert OutputsValid(g, e.before, d);
      }
    }
  }

  /** A readable graph without a reached cycle is realised, and the answer is how that
      ended: the root's first output where nothing fatal happened, or that there is
      none; else the failure of the one fatal effect, the last. */
  lemma BuildWithDepsAnswers(fallback: Fallback, o: Outside, s: Drvs, store: Store)
    requires Bounded(o) && s.Finite() && !Unreadable(s) && !CycleReached(s)
    ensures BuildDepGraph(s).Ok?
    ensures var run := BuildWithDeps(fallback, o, s, store);
            var t := run.world.trace;
            if NoneFatal(fallback, o, t, 0, |t|) then
              if s.rootDrv.outputs == [] then run.result.NoOutputs?
              else run.result == BuildSuccess(s.rootDrv.OutputPaths()[0])
            else
              && run.result.Failed? && NoneFatal(fallback, o, t, 0, |t| - 1) && Fatal(fallback, o, t, |t| - 1)
              && Reported(BuildDepGraph(s).value, o, t, |t| - 1, run.result.failure)
  {
    AcyclicIsRealised(fallback, o, s, store);
    EndsAtFirstFatal(fallback, o, BuildDepGraph(s).value, store, s.root);
  }

  lemma AcyclicIsRealised(fallback: Fallback, o: Outside, s: Drvs, store: Store)
    requires Bounded(o) && s.Finite() && !Unreadable(s) && !CycleReached(s)
    ensures BuildDepGraph(s).Ok?
    ensures var run := BuildWithDeps(fallback, o, s, store);
            var r := Realise(fallback, o, BuildDepGraph(s).value, store, s.root);
            && run.world == r.world
            && run.result == if r.result.Err? then Failed(r.result.error)
                             else if s.rootDrv.outputs == [] then NoOutputs
                             else BuildSuccess(s.rootDrv.OutputPaths()[0])
  {
    BuildDepGraphIsReachable(s);
    TopoSortDecidesCycles(BuildDepGraph(s).value);
    CyclesAreReached(s);
  }
}
