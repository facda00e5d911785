/** What the caches hold is not built: neither a derivation they supply whole, nor
    one whose own inputs fill the holes they leave (src/Nix/Realise.hs). */
module RealiseCached {
  import opened Basics
  import opened Derivations
  import opened Digraph
  import opened DependencyGraph
  import opened Realisation
  import opened ClosureSafety
  import opened FetchOrder
  import opened RealiseSafety

  // ---- What the caches hold ---------------------------------------------

  /** Offered whenever asked about, with references to supplied paths only. */
  ghost predicate Held(o: Outside, s: set<StorePath>, p: StorePath) {
    forall h :: o.offer(h, p).Offered? && o.offer(h, p).references <= s
  }

  ghost predicate Hole(o: Outside, p: StorePath) {
    forall h :: o.offer(h, p) == NotOffered
  }

  ghost predicate Delivers(o: Outside, s: set<StorePath>) {
    forall h, batch {:trigger o.fetch(h, batch)} :: Elements(batch) <= s ==> o.fetch(h, batch).Fetched?
  }

  /** The caches supply a set of paths but for some holes in it. */
  ghost predicate Supplied(o: Outside, s: set<StorePath>, holes: set<StorePath>) {
    && holes <= s && Delivers(o, s)
    && (forall p :: p in s - holes ==> Held(o, s, p))
    && (forall p :: p in holes ==> Hole(o, p))
  }

  /** Only supplied paths were asked about or fetched, and nothing built. */
  ghost predicate Within(s: set<StorePath>, w: World, w': World) {
    && Grows(w, w')
    && forall i :: |w.trace| <= i < |w'.trace| ==> WithinEvent(s, w'.trace[i])
  }

  ghost predicate WithinEvent(s: set<StorePath>, e: Event) {
    match e
    case Query(p) => p in s
    case Fetch(batch, _, _) => Elements(batch) <= s
    case Build(_, _, _) => false
    case Report(_, _) => true
  }

  lemma WithinTransitive(s: set<StorePath>, a: World, b: World, c: World)
    requires Within(s, a, b) && Within(s, b, c)
    ensures Within(s, a, c)
  {
    GrowsTransitive(a, b, c);
  }

  lemma ElapseWithin(s: set<StorePath>, o: Outside, w: World, e: Event, registered: Store)
    requires WithinEvent(s, e)
    ensures Within(s, w, Elapse(o, w, e, registered))
  {
    ElapseGrows(o, w, e, registered);
  }

  // ---- Substituting a supplied closure ----------------------------------

  lemma {:induction false} AskAllSupplied(o: Outside, w: World, paths: seq<StorePath>, s: set<StorePath>,
                                          holes: set<StorePath>)
    requires Supplied(o, s, holes) && Elements(paths) <= s
    ensures var asked := AskAll(o, w, paths);
            && Within(s, w, asked.world) && asked.answer.Ok?
            && (asked.answer.value.Some? ==> asked.answer.value.value <= s)
            && (Elements(paths) !! holes ==> asked.answer.value.Some?)
    decreases |paths|
  {
    if paths != [] {
      var p, w1 := paths[0], AfterQuery(o, w, paths[0]);
      assert Elements(paths) == {p} + Elements(paths[1..]);
      ElapseWithin(s, o, w, Query(p), map[]);
      assert if p in holes then Hole(o, p) else Held(o, s, p);
      AskAllSupplied(o, w1, paths[1..], s, holes);
      WithinTransitive(s, w, w1, AskAll(o, w1, paths[1..]).world);
    }
  }

  /** A closure the caches supply completes once its holes are valid; before that it
      lacks at most the holes. */
  ghost predicate SuppliedOutcome(w: World, paths: set<StorePath>, s: set<StorePath>, holes: set<StorePath>,
                                  a: Attempt) {
    && Within(s, w, a.world)
    && (a.outcome.ClosureComplete? || a.outcome.ClosureUnavailable? || a.outcome.ClosureIncomplete?)
    && (holes <= w.store.Keys ==> a.outcome.ClosureComplete?)
    && (paths !! holes ==> !a.outcome.ClosureUnavailable?)
  }

  lemma {:induction false} ClosureOfSupplied(o: Outside, w: World, visited: set<StorePath>, paths: seq<StorePath>,
                                             s: set<StorePath>, holes: set<StorePath>)
    requires Bounded(o) && Supplied(o, s, holes) && Elements(paths) <= s
    requires FetchesInOrder(o, |w.trace|, ClosureOf(o, w, visited, paths).world.trace)
    ensures SuppliedOutcome(w, Elements(paths), s, holes, ClosureOf(o, w, visited, paths))
    decreases |o.universe - visited|, 1, 0
  {
    var missing := Missing(w, paths);
    var asked := AskAll(o, w, missing);
    assert Elements(missing) <= Elements(paths) && Elements(missing) !! w.store.Keys;
    AskAllSupplied(o, w, missing, s, holes);
    if missing != [] && asked.answer.value.Some? {
      AskedAreBounded(o, w, missing);
      var references := References(asked, missing);
      var held := ReferencesFirst(o, asked.world, visited, references);
      var after := ClosureOf(o, w, visited, paths).world.trace;
      ReferencesFirstGrows(o, asked.world, visited, references);
      InOrderPart(o, |w.trace|, held.world.trace, after);
      InOrderPart(o, |w.trace|, asked.world.trace, held.world.trace);
      ReferencesFirstSupplied(o, asked.world, visited, references, s, holes);
      WithinTransitive(s, w, asked.world, held.world);
      if held.outcome.ClosureComplete? {
        var outcome := FetchAnswer(o, held.world, missing);
        InOrderRegisters(o, held.world, missing, after[|held.world.trace|]);
        ElapseWithin(s, o, held.world, Fetch(missing, outcome, held.world.store), FetchRows(o, missing, outcome));
        WithinTransitive(s, w, held.world, AfterFetch(o, held.world, missing));
      }
    }
  }

  lemma {:induction false} ReferencesFirstSupplied(o: Outside, w: World, visited: set<StorePath>,
                                                   references: seq<StorePath>, s: set<StorePath>, holes: set<StorePath>)
    requires Bounded(o) && Elements(references) <= o.universe && Supplied(o, s, holes) && Elements(references) <= s
    requires FetchesInOrder(o, |w.trace|, ReferencesFirst(o, w, visited, references).world.trace)
    ensures SuppliedOutcome(w, {}, s, holes, ReferencesFirst(o, w, visited, references))
    decreases |o.universe - visited|, 0, |references|
  {
    if references != [] {
      var r, rest := references[0], references[1..];
      assert Elements(references) == {r} + Elements(rest);
      if r in visited {
        ReferencesFirstSupplied(o, w, visited, rest, s, holes);
      } else {
        Shrinks(o, visited, r);
        assert Elements([r]) == {r};
        var a := ClosureOf(o, w, visited + {r}, [r]);
        SubsetSize(o.universe - a.visited, o.universe - (visited + {r}));
        FirstPart(o, w, visited, references);
        ClosureOfSupplied(o, w, visited + {r}, [r], s, holes);
        if a.outcome.ClosureComplete? {
          ReferencesFirstSupplied(o, a.world, a.visited, rest, s, holes);
          WithinTransitive(s, w, a.world, ReferencesFirst(o, a.world, a.visited, rest).world);
        }
      }
    }
  }

  /** What realising the first of the references did comes first. */
  lemma FirstPart(o: Outside, w: World, visited: set<StorePath>, references: seq<StorePath>)
    requires Bounded(o) && references != [] && references[0] !in visited && Elements(references) <= o.universe
    requires FetchesInOrder(o, |w.trace|, ReferencesFirst(o, w, visited, references).world.trace)
    ensures var r := references[0];
            var a := ClosureOf(o, w, visited + {r}, [r]);
            && FetchesInOrder(o, |w.trace|, a.world.trace)
            && (a.outcome.ClosureComplete? ==>
                  FetchesInOrder(o, |a.world.trace|,
                    ReferencesFirst(o, a.world, a.visited, references[1..]).world.trace))
  {
    var r := references[0];
    var a := ClosureOf(o, w, visited + {r}, [r]);
    ClosureOfGrows(o, w, visited + {r}, [r]);
    if a.outcome.ClosureComplete? {
      ReferencesFirstGrows(o, a.world, a.visited, references[1..]);
      InOrderPart(o, |w.trace|, a.world.trace, ReferencesFirst(o, a.world, a.visited, references[1..]).world.trace);
    }
  }

  /** A derivation the caches supply whole, with no cycle of references, is
      substituted: nothing is built, nothing but what they supply is asked about,
      and no other derivation is visited. */
  lemma SuppliedNeedsNoInputs(fallback: Fallback, o: Outside, g: DepGraph, store: Store, root: StorePath,
                              s: set<StorePath>)
    requires Honest(o) && Supplied(o, s, {}) && root in g && Elements(g[root].drv.OutputPaths()) <= s
    requires !MeetsCycle(o, Elements(g[root].drv.OutputPaths()))
    ensures var r := Realise(fallback, o, g, store, root);
            r.result == Ok({root}) && forall i :: 0 <= i < |r.world.trace| ==> WithinEvent(s, r.world.trace[i])
  {
    var w, drv := World(store, []), g[root].drv;
    var paths := drv.OutputPaths();
    SubstituteInOrder(o, w, paths);
    ClosureOfSupplied(o, w, Elements(paths), paths, s, {});
    var first := SubstituteClosure(o, w, paths);
    ElapseWithin(s, o, first.world, Report(Substituted, drv), map[]);
    WithinTransitive(s, w, first.world, AfterReport(o, first.world, Substituted, drv));
    assert {} + {root} == {root};
  }

  // ---- Holes the inputs fill --------------------------------------------

  /** The outputs of a node's direct dependencies. */
  ghost function InputOutputs(g: DepGraph, n: StorePath): set<StorePath> {
    set d, p | d in DirectDeps(g, n) && d in g && p in g[d].drv.OutputPaths() :: p
  }

  /** The caches supply a node's outputs, with no cycle of references, but for
      what its inputs make. */
  ghost predicate SuppliedByInputs(o: Outside, g: DepGraph, n: StorePath, s: set<StorePath>, holes: set<StorePath>) {
    && n in g && Supplied(o, s, holes) && holes <= InputOutputs(g, n)
    && Elements(g[n].drv.OutputPaths()) <= s - holes && !MeetsCycle(o, Elements(g[n].drv.OutputPaths()))
  }

  /** A trace gained no build of a node. */
  ghost predicate NoneBuilt(n: StorePath, w: World, w': World) {
    Grows(w, w') && forall i :: |w.trace| <= i < |w'.trace| && w'.trace[i].Build? ==> w'.trace[i].node != n
  }

  lemma NoneBuiltTransitive(n: StorePath, a: World, b: World, c: World)
    requires NoneBuilt(n, a, b) && NoneBuilt(n, b, c)
    ensures NoneBuilt(n, a, c)
  {
    GrowsTransitive(a, b, c);
  }

  lemma SubstituteNoneBuilt(o: Outside, w: World, paths: seq<StorePath>, n: StorePath)
    requires Bounded(o)
    ensures NoneBuilt(n, w, SubstituteClosure(o, w, paths).world)
  {
    ClosureOfSubstitutes(o, w, Elements(paths), paths);
  }

  lemma ReportNoneBuilt(o: Outside, w: World, status: Realised, drv: Derivation, n: StorePath)
    ensures NoneBuilt(n, w, AfterReport(o, w, status, drv))
  {
    ElapseGrows(o, w, Report(status, drv), map[]);
  }

  /** With its inputs realised, the retried substitution of a node completes. */
  lemma RetryCompletes(o: Outside, g: DepGraph, w: World, n: StorePath, s: set<StorePath>, holes: set<StorePath>)
    requires Honest(o) && SuppliedByInputs(o, g, n, s, holes) && AllRealised(g, w, Elements(DirectDeps(g, n)))
    ensures SubstituteClosure(o, w, g[n].drv.OutputPaths()).outcome.ClosureComplete?
  {
    forall p | p in holes
      ensures p in w.store
    {
      var d :| d in DirectDeps(g, n) && d in g && p in g[d].drv.OutputPaths();
      assert OutputsValid(g, w.store, d);
    }
    var paths := g[n].drv.OutputPaths();
    SubstituteInOrder(o, w, paths);
    ClosureOfSupplied(o, w, Elements(paths), paths, s, holes);
  }

  /** Before that it completes, or lacks what the inputs make. */
  lemma FirstTryLacksHoles(o: Outside, g: DepGraph, w: World, n: StorePath, s: set<StorePath>, holes: set<StorePath>)
    requires Honest(o) && SuppliedByInputs(o, g, n, s, holes)
    ensures var outcome := SubstituteClosure(o, w, g[n].drv.OutputPaths()).outcome;
            outcome.ClosureComplete? || outcome.ClosureIncomplete?
  {
    var paths := g[n].drv.OutputPaths();
    SubstituteInOrder(o, w, paths);
    ClosureOfSupplied(o, w, Elements(paths), paths, s, holes);
  }

  lemma FinishNoneBuilt(fallback: Fallback, o: Outside, g: DepGraph, n: StorePath, s: set<StorePath>,
                        holes: set<StorePath>,
                        node: StorePath, first: ClosureOutcome, inputs: Progress)
    requires Honest(o) && SuppliedByInputs(o, g, n, s, holes) && node in g && inputs.result.Ok?
    requires node == n ==> first.ClosureIncomplete? && AllRealised(g, inputs.world, Elements(DirectDeps(g, n)))
    ensures NoneBuilt(n, inputs.world, FinishNode(fallback, o, node, g[node].drv, first, inputs).world)
  {
    var w, drv := inputs.world, g[node].drv;
    if node == n {
      RetryCompletes(o, g, w, n, s, holes);
    }
    SubstituteNoneBuilt(o, w, drv.OutputPaths(), n);
    var retried :=
      if first.ClosureIncomplete? then SubstituteClosure(o, w, drv.OutputPaths())
      else Attempt(first, {}, w);
    if retried.outcome.ClosureComplete? {
      ReportNoneBuilt(o, retried.world, Substituted, drv, n);
      NoneBuiltTransitive(n, w, retried.world, AfterReport(o, retried.world, Substituted, drv));
    } else if SubstitutionStop(fallback, node, retried.outcome).None? {
      var built := AfterBuild(o, retried.world, node, drv);
      ElapseGrows(o, retried.world, Build(node, o.build(retried.world.trace, node).Ok?, retried.world.store),
                  if o.build(retried.world.trace, node).Ok? then BuildRows(o, retried.world, drv.OutputPaths())
                    else map[]);
      NoneBuiltTransitive(n, w, retried.world, built);
      ReportNoneBuilt(o, built, Built, drv, n);
      NoneBuiltTransitive(n, w, built, AfterReport(o, built, Built, drv));
    }
  }

  lemma {:induction false} NodeNoneBuilt(fallback: Fallback, o: Outside, g: DepGraph, n: StorePath, s: set<StorePath>,
                                         holes: set<StorePath>,
                                         w: World, visited: set<StorePath>, node: StorePath)
    requires Honest(o) && Acyclic(Dependencies(g)) && SuppliedByInputs(o, g, n, s, holes) && BuildsReady(g, w.trace)
    requires VisitedRealised(g, w, visited, Rank(Dependencies(g), node) + 1)
    ensures NoneBuilt(n, w, RealiseNode(fallback, o, g, w, visited, node).world)
    decreases |g.Keys - visited|, 0, 2
  {
    if node !in visited && node in g {
      var drv := g[node].drv;
      if AllOutputsValid(w, drv) {
        ReportNoneBuilt(o, w, AlreadyValid, drv, n);
      } else {
        var first := SubstituteClosure(o, w, drv.OutputPaths());
        SubstituteFacts(o, g, w, node);
        SubstituteNoneBuilt(o, w, drv.OutputPaths(), n);
        if first.outcome.ClosureComplete? {
          ReportNoneBuilt(o, first.world, Substituted, drv, n);
          NoneBuiltTransitive(n, w, first.world, AfterReport(o, first.world, Substituted, drv));
        } else if SubstitutionStop(fallback, node, first.outcome).None? {
          if node == n {
            FirstTryLacksHoles(o, g, w, n, s, holes);
          }
          InputsNoneBuilt(fallback, o, g, n, s, holes, w, visited, node, first);
        }
      }
    }
  }

  lemma {:induction false} InputsNoneBuilt(fallback: Fallback, o: Outside, g: DepGraph, n: StorePath,
                                           s: set<StorePath>, holes: set<StorePath>,
                                           w: World, visited: set<StorePath>, node: StorePath, first: Attempt)
    requires Honest(o) && Acyclic(Dependencies(g)) && SuppliedByInputs(o, g, n, s, holes) && node in g
             && node !in visited
    requires VisitedRealised(g, w, visited, Rank(Dependencies(g), node) + 1)
    requires NoneBuilt(n, w, first.world) && BuildsReady(g, first.world.trace)
    requires node == n ==> first.outcome.ClosureIncomplete?
    ensures NoneBuilt(n, w, BuildFromInputs(fallback, o, g, visited, node, first).world)
    decreases |g.Keys - visited|, 0, 1
  {
    assert g.Keys - (visited + {node}) == (g.Keys - visited) - {node};
    var seen, rank := visited + {node}, Rank(Dependencies(g), node);
    InputsInOrder(g, w, first.world, visited, node);
    AllNoneBuilt(fallback, o, g, n, s, holes, first.world, seen, DirectDeps(g, node), rank);
    var inputs := RealiseAll(fallback, o, g, first.world, seen, DirectDeps(g, node));
    NoneBuiltTransitive(n, w, first.world, inputs.world);
    if inputs.result.Ok? {
      InputsRealised(fallback, o, g, first.world, seen, node);
      FinishedNoneBuilt(fallback, o, g, n, s, holes, w, node, first.outcome, inputs);
    }
  }

  /** A node's inputs rank below it, and whatever was visited before them does not. */
  lemma InputsInOrder(g: DepGraph, w: World, w': World, visited: set<StorePath>, node: StorePath)
    requires Acyclic(Dependencies(g)) && Grows(w, w')
    requires VisitedRealised(g, w, visited, Rank(Dependencies(g), node) + 1)
    ensures VisitedRealised(g, w', visited + {node}, Rank(Dependencies(g), node))
    ensures RankBelow(g, Elements(DirectDeps(g, node)), Rank(Dependencies(g), node))
  {
    VisitedLater(g, w, w', visited, visited + {node}, Rank(Dependencies(g), node) + 1, Rank(Dependencies(g), node));
    DependenciesRankLower(g, node);
  }

  lemma InputsRealised(fallback: Fallback, o: Outside, g: DepGraph, w: World, seen: set<StorePath>, node: StorePath)
    requires Bounded(o) && Acyclic(Dependencies(g)) && BuildsReady(g, w.trace)
    requires VisitedRealised(g, w, seen, Rank(Dependencies(g), node))
    requires RankBelow(g, Elements(DirectDeps(g, node)), Rank(Dependencies(g), node))
    ensures var inputs := RealiseAll(fallback, o, g, w, seen, DirectDeps(g, node));
            inputs.result.Ok? ==> AllRealised(g, inputs.world, Elements(DirectDeps(g, node)))
  {
    var deps := DirectDeps(g, node);
    RealiseAllReady(fallback, o, g, w, seen, deps, Rank(Dependencies(g), node));
    var inputs := RealiseAll(fallback, o, g, w, seen, deps);
    if inputs.result.Ok? {
      RealisedCover(g, inputs.world, Elements(deps) + (inputs.result.value - seen), {}, Elements(deps));
    }
  }

  lemma FinishedNoneBuilt(fallback: Fallback, o: Outside, g: DepGraph, n: StorePath, s: set<StorePath>,
                          holes: set<StorePath>, w: World, node: StorePath, first: ClosureOutcome, inputs: Progress)
    requires Honest(o) && SuppliedByInputs(o, g, n, s, holes) && node in g && inputs.result.Ok?
    requires NoneBuilt(n, w, inputs.world) && AllRealised(g, inputs.world, Elements(DirectDeps(g, node)))
    requires node == n ==> first.ClosureIncomplete?
    ensures NoneBuilt(n, w, FinishNode(fallback, o, node, g[node].drv, first, inputs).world)
  {
    FinishNoneBuilt(fallback, o, g, n, s, holes, node, first, inputs);
    NoneBuiltTransitive(n, w, inputs.world, FinishNode(fallback, o, node, g[node].drv, first, inputs).world);
  }

  lemma {:induction false} AllNoneBuilt(fallback: Fallback, o: Outside, g: DepGraph, n: StorePath, s: set<StorePath>,
                                        holes: set<StorePath>,
                                        w: World, visited: set<StorePath>, nodes: seq<StorePath>, rank: nat)
    requires Honest(o) && Acyclic(Dependencies(g)) && SuppliedByInputs(o, g, n, s, holes) && BuildsReady(g, w.trace)
    requires VisitedRealised(g, w, visited, rank) && RankBelow(g, Elements(nodes), rank)
    ensures NoneBuilt(n, w, RealiseAll(fallback, o, g, w, visited, nodes).world)
    decreases |g.Keys - visited|, 1, |nodes|
  {
    if nodes != [] {
      var node := nodes[0];
      OneOfAllReady(fallback, o, g, w, visited, node, rank);
      if node in g {
        VisitedLater(g, w, w, visited, visited, rank, Rank(Dependencies(g), node) + 1);
        NodeNoneBuilt(fallback, o, g, n, s, holes, w, visited, node);
      }
      var one := RealiseNode(fallback, o, g, w, visited, node);
      if one.result.Ok? {
        SubsetSize(g.Keys - one.result.value, g.Keys - visited);
        RankBelowSubset(g, Elements(nodes), Elements(nodes[1..]), rank);
        AllNoneBuilt(fallback, o, g, n, s, holes, one.world, one.result.value, nodes[1..], rank);
        NoneBuiltTransitive(n, w, one.world, RealiseAll(fallback, o, g, one.world, one.result.value, nodes[1..]).world);
      }
    }
  }

  /** In every run over an acyclic graph, a derivation whose outputs the caches
      supply but for what its own inputs make is never built: its substitution is
      tried again once they are realised. */
  lemma HolesFilledByInputs(fallback: Fallback, o: Outside, g: DepGraph, store: Store, root: StorePath,
                            n: StorePath, s: set<StorePath>, holes: set<StorePath>)
    requires Honest(o) && Acyclic(Dependencies(g)) && SuppliedByInputs(o, g, n, s, holes)
    ensures var t := Realise(fallback, o, g, store, root).world.trace;
            forall i :: 0 <= i < |t| && t[i].Build? ==> t[i].node != n
  {
    NodeNoneBuilt(fallback, o, g, n, s, holes, World(store, []), {}, root);
  }
}
