/** How a run of `Realise` ends: at its first fatal effect, and nowhere else. */
module RealiseOutcomes {
  import opened Basics
  import opened Derivations
  import opened Digraph
  import opened DependencyGraph
  import opened Realisation
  import opened ClosureSafety
  import RealiseSafety

  // ---- Effects that go wrong --------------------------------------------

  /** A query that could not be asked, or a fetch that failed. */
  ghost predicate Bad(o: Outside, t: Trace, i: nat)
    requires i < |t|
  {
    match t[i]
    case Query(p) => o.offer(t[..i], p).QueryFailed?
    case Fetch(_, outcome, _) => outcome.FetchFailed?
    case _ => false
  }

  /** An effect the run cannot go on from: a failed query or build, and a failed
      fetch unless the derivation may be built instead. */
  ghost predicate Fatal(fallback: Fallback, o: Outside, t: Trace, i: nat)
    requires i < |t|
  {
    match t[i]
    case Query(p) => o.offer(t[..i], p).QueryFailed?
    case Fetch(_, outcome, _) => outcome.FetchFailed? && fallback.NoFallback?
    case Build(node, succeeded, _) => !succeeded
    case Report(_, _) => false
  }

  /** A trace ends with an attempt to substitute a node's outputs that failed. */
  ghost predicate AttemptFailed(g: DepGraph, o: Outside, t: Trace, n: StorePath)
    requires Bounded(o)
  {
    n in g && exists w :: FailedFrom(g, o, w, t, n)
  }

  /** The attempt made on `w` begins by asking about one of the outputs, only
      asks and fetches, and fails where the trace ends. */
  ghost predicate FailedFrom(g: DepGraph, o: Outside, w: World, t: Trace, n: StorePath)
    requires Bounded(o) && n in g
  {
    var paths := g[n].drv.OutputPaths();
    var a := SubstituteClosure(o, w, paths);
    && a.outcome.ClosureFailed? && a.world.trace == t
    && w.trace < t && t[|w.trace|].Query? && t[|w.trace|].path in paths
    && forall i :: |w.trace| <= i < |t| ==> t[i].Query? || t[i].Fetch?
  }

  /** What a run that ends with an effect reports. */
  ghost predicate Reported(g: DepGraph, o: Outside, t: Trace, i: nat, f: RealiseFailure)
    requires Bounded(o) && i < |t|
  {
    match t[i]
    case Query(p) => o.offer(t[..i], p).QueryFailed? && f == CacheQueryFailed(o.offer(t[..i], p).why)
    case Fetch(_, _, _) => f.SubstitutesFailed? && AttemptFailed(g, o, t[..i + 1], f.drvPath)
    case Build(node, _, _) => o.build(t[..i], node).Err? && f == BuildFailed(o.build(t[..i], node).error)
    case Report(_, _) => false
  }

  ghost predicate NoneBad(o: Outside, t: Trace, from: nat, to: nat)
    requires to <= |t|
  {
    forall i :: from <= i < to ==> !Bad(o, t, i)
  }

  ghost predicate NoneFatal(fallback: Fallback, o: Outside, t: Trace, from: nat, to: nat)
    requires to <= |t|
  {
    forall i :: from <= i < to ==> !Fatal(fallback, o, t, i)
  }

  lemma BadStays(o: Outside, t: Trace, t': Trace, from: nat, to: nat)
    requires t <= t' && to <= |t|
    ensures NoneBad(o, t, from, to) <==> NoneBad(o, t', from, to)
  {
    forall i | from <= i < to
      ensures Bad(o, t, i) <==> Bad(o, t', i)
    {
      assert t'[..i] == t[..i];
    }
  }

  lemma FatalStays(fallback: Fallback, o: Outside, t: Trace, t': Trace, from: nat, to: nat)
    requires t <= t' && to <= |t|
    ensures NoneFatal(fallback, o, t, from, to) <==> NoneFatal(fallback, o, t', from, to)
  {
    forall i | from <= i < to
      ensures Fatal(fallback, o, t, i) <==> Fatal(fallback, o, t', i)
    {
      assert t'[..i] == t[..i];
    }
  }

  // ---- Substituting a closure -------------------------------------------

  /** The trace gained nothing bad but, for a failure, its last event. */
  ghost predicate Ends(o: Outside, before: Trace, t: Trace, outcome: ClosureOutcome) {
    && before <= t
    && match outcome
       case ClosureQueryFailed(why) =>
         && |before| < |t| && NoneBad(o, t, |before|, |t| - 1)
         && t[|t| - 1].Query? && o.offer(t[..|t| - 1], t[|t| - 1].path) == QueryFailed(why)
       case ClosureFailed =>
         && |before| < |t| && NoneBad(o, t, |before|, |t| - 1)
         && t[|t| - 1].Fetch? && t[|t| - 1].outcome.FetchFailed?
       case _ => NoneBad(o, t, |before|, |t|)
  }

  /** What follows a quiet start ends as it does on its own. */
  lemma EndsLater(o: Outside, before: Trace, middle: Trace, t: Trace, outcome: ClosureOutcome)
    requires before <= middle && NoneBad(o, middle, |before|, |middle|) && Ends(o, middle, t, outcome)
    ensures Ends(o, before, t, outcome)
  {
    BadStays(o, middle, t, |before|, |middle|);
  }

  lemma {:induction false} AskAllEnds(o: Outside, w: World, paths: seq<StorePath>)
    ensures var asked := AskAll(o, w, paths);
            Ends(o, w.trace, asked.world.trace,
                 if asked.answer.Ok? then ClosureUnavailable else ClosureQueryFailed(asked.answer.error))
    decreases |paths|
  {
    if paths != [] {
      var w1 := AfterQuery(o, w, paths[0]);
      assert w1.trace[..|w.trace|] == w.trace;
      if !o.offer(w.trace, paths[0]).QueryFailed? {
        AskAllEnds(o, w1, paths[1..]);
        var rest := AskAll(o, w1, paths[1..]);
        EndsLater(o, w.trace, w1.trace, rest.world.trace,
                  if rest.answer.Ok? then ClosureUnavailable else ClosureQueryFailed(rest.answer.error));
      }
    }
  }

  lemma {:induction false} ClosureOfEnds(o: Outside, w: World, visited: set<StorePath>, paths: seq<StorePath>)
    requires Bounded(o)
    ensures var a := ClosureOf(o, w, visited, paths); Ends(o, w.trace, a.world.trace, a.outcome)
    decreases |o.universe - visited|, 1, 0
  {
    var missing := Missing(w, paths);
    var asked := AskAll(o, w, missing);
    AskAllEnds(o, w, missing);
    if missing != [] && asked.answer.Ok? && asked.answer.value.Some? {
      AskedAreBounded(o, w, missing);
      ReferencesFirstEnds(o, asked.world, visited, References(asked, missing));
      var held := ReferencesFirst(o, asked.world, visited, References(asked, missing));
      EndsLater(o, w.trace, asked.world.trace, held.world.trace, held.outcome);
      if held.outcome.ClosureComplete? {
        FetchEnds(o, held.world, missing);
        EndsLater(o, w.trace, held.world.trace, AfterFetch(o, held.world, missing).trace,
                  FetchedClosure(FetchAnswer(o, held.world, missing)));
      }
    }
  }

  lemma FetchEnds(o: Outside, w: World, batch: seq<StorePath>)
    ensures Ends(o, w.trace, AfterFetch(o, w, batch).trace, FetchedClosure(FetchAnswer(o, w, batch)))
  {
  }

  lemma {:induction false} ReferencesFirstEnds(o: Outside, w: World, visited: set<StorePath>,
                                               references: seq<StorePath>)
    requires Bounded(o) && Elements(references) <= o.universe
    ensures var a := ReferencesFirst(o, w, visited, references); Ends(o, w.trace, a.world.trace, a.outcome)
    decreases |o.universe - visited|, 0, |references|
  {
    if references != [] {
      var r, rest := references[0], references[1..];
      if r in visited {
        ReferencesFirstEnds(o, w, visited, rest);
      } else {
        Shrinks(o, visited, r);
        ClosureOfEnds(o, w, visited + {r}, [r]);
        var a := ClosureOf(o, w, visited + {r}, [r]);
        SubsetSize(o.universe - a.visited, o.universe - (visited + {r}));
        if a.outcome.ClosureComplete? {
          ReferencesFirstEnds(o, a.world, a.visited, rest);
          var later := ReferencesFirst(o, a.world, a.visited, rest);
          EndsLater(o, w.trace, a.world.trace, later.world.trace, later.outcome);
        }
      }
    }
  }

  // ---- Realising --------------------------------------------------------

  /** Success saw nothing fatal; failure reports the one fatal effect, its last. */
  ghost predicate Settles(fallback: Fallback, o: Outside, g: DepGraph, before: Trace, r: Progress)
    requires Bounded(o)
  {
    var t := r.world.trace;
    && before <= t
    && (r.result.Ok? ==> NoneFatal(fallback, o, t, |before|, |t|))
    && (r.result.Err? ==>
          && |before| < |t| && NoneFatal(fallback, o, t, |before|, |t| - 1)
          && Fatal(fallback, o, t, |t| - 1) && Reported(g, o, t, |t| - 1, r.result.error))
  }

  lemma SettlesLater(fallback: Fallback, o: Outside, g: DepGraph, before: Trace, middle: Trace, r: Progress)
    requires Bounded(o)
    requires before <= middle && NoneFatal(fallback, o, middle, |before|, |middle|)
             && Settles(fallback, o, g, middle, r)
    ensures Settles(fallback, o, g, before, r)
  {
    FatalStays(fallback, o, middle, r.world.trace, |before|, |middle|);
  }

  /** A closure that does not stop the run saw nothing fatal, and one that does
      ended with what stops it. */
  lemma ClosureSettles(fallback: Fallback, o: Outside, g: DepGraph, before: Trace, node: StorePath, w: World,
                       outcome: ClosureOutcome)
    requires Bounded(o) && node in g && Ends(o, before, w.trace, outcome)
    requires forall i :: |before| <= i < |w.trace| ==> w.trace[i].Query? || w.trace[i].Fetch?
    requires outcome.ClosureFailed? ==> AttemptFailed(g, o, w.trace, node)
    ensures var stop := SubstitutionStop(fallback, node, outcome);
            && (stop.None? ==> NoneFatal(fallback, o, w.trace, |before|, |w.trace|))
            && (stop.Some? ==> Settles(fallback, o, g, before, Progress(Err(stop.value), w)))
  {
    var t := w.trace;
    assert |t| > 0 ==> t[..|t| - 1 + 1] == t;
    assert forall i :: |before| <= i < |t| && Fatal(fallback, o, t, i) ==> Bad(o, t, i);
  }

  lemma ReportQuiet(fallback: Fallback, o: Outside, before: Trace, w: World, status: Realised, drv: Derivation)
    requires before <= w.trace && NoneFatal(fallback, o, w.trace, |before|, |w.trace|)
    ensures var t := AfterReport(o, w, status, drv).trace; before <= t && NoneFatal(fallback, o, t, |before|, |t|)
  {
    FatalStays(fallback, o, w.trace, AfterReport(o, w, status, drv).trace, |before|, |w.trace|);
  }

  lemma {:induction false} RealiseNodeSettles(fallback: Fallback, o: Outside, g: DepGraph, w: World,
                                              visited: set<StorePath>, node: StorePath)
    requires Bounded(o)
    ensures Settles(fallback, o, g, w.trace, RealiseNode(fallback, o, g, w, visited, node))
    decreases |g.Keys - visited|, 0, 2
  {
    if node !in visited && node in g {
      var drv := g[node].drv;
      if AllOutputsValid(w, drv) {
        ReportQuiet(fallback, o, w.trace, w, AlreadyValid, drv);
      } else {
        var first := SubstituteClosure(o, w, drv.OutputPaths());
        SubstituteSettles(fallback, o, g, w, node);
        if first.outcome.ClosureComplete? {
          ReportQuiet(fallback, o, w.trace, first.world, Substituted, drv);
        } else if SubstitutionStop(fallback, node, first.outcome).None? {
          BuildFromInputsSettles(fallback, o, g, w.trace, visited, node, first);
        }
      }
    }
  }

  /** A failed attempt first asked about one of its paths. */
  lemma AttemptBegins(o: Outside, w: World, paths: seq<StorePath>)
    requires Bounded(o) && SubstituteClosure(o, w, paths).outcome.ClosureFailed?
    ensures var t := SubstituteClosure(o, w, paths).world.trace;
            w.trace < t && t[|w.trace|].Query? && t[|w.trace|].path in paths
  {
    var missing := Missing(w, paths);
    var w1 := AfterQuery(o, w, missing[0]);
    var asked := AskAll(o, w, missing);
    AskAllGrows(o, w1, missing[1..]);
    AskedAreBounded(o, w, missing);
    assert w1.trace <= asked.world.trace;
    ReferencesFirstGrows(o, asked.world, Elements(paths), References(asked, missing));
    assert missing[0] in missing;
  }

  lemma SubstituteSettles(fallback: Fallback, o: Outside, g: DepGraph, w: World, node: StorePath)
    requires Bounded(o) && node in g
    ensures var a := SubstituteClosure(o, w, g[node].drv.OutputPaths());
            var stop := SubstitutionStop(fallback, node, a.outcome);
            && w.trace <= a.world.trace
            && (stop.None? ==> NoneFatal(fallback, o, a.world.trace, |w.trace|, |a.world.trace|))
            && (stop.Some? ==> Settles(fallback, o, g, w.trace, Progress(Err(stop.value), a.world)))
  {
    var paths := g[node].drv.OutputPaths();
    var a := SubstituteClosure(o, w, paths);
    ClosureOfEnds(o, w, Elements(paths), paths);
    RealiseSafety.ClosureOfSubstitutes(o, w, Elements(paths), paths);
    if a.outcome.ClosureFailed? {
      AttemptBegins(o, w, paths);
      assert FailedFrom(g, o, w, a.world.trace, node);
    }
    ClosureSettles(fallback, o, g, w.trace, node, a.world, a.outcome);
  }

  lemma {:induction false} BuildFromInputsSettles(fallback: Fallback, o: Outside, g: DepGraph, before: Trace,
                                                  visited: set<StorePath>, node: StorePath, first: Attempt)
    requires Bounded(o) && node in g && node !in visited
    requires before <= first.world.trace && NoneFatal(fallback, o, first.world.trace, |before|, |first.world.trace|)
    requires !first.outcome.ClosureComplete? && SubstitutionStop(fallback, node, first.outcome).None?
    ensures Settles(fallback, o, g, before, BuildFromInputs(fallback, o, g, visited, node, first))
    decreases |g.Keys - visited|, 0, 1
  {
    assert g.Keys - (visited + {node}) == (g.Keys - visited) - {node};
    var inputs := RealiseAll(fallback, o, g, first.world, visited + {node}, DirectDeps(g, node));
    RealiseAllSettles(fallback, o, g, first.world, visited + {node}, DirectDeps(g, node));
    SettlesLater(fallback, o, g, before, first.world.trace, inputs);
    if inputs.result.Ok? {
      FinishNodeSettles(fallback, o, g, before, node, first.outcome, inputs);
    }
  }

  lemma FinishNodeSettles(fallback: Fallback, o: Outside, g: DepGraph, before: Trace, node: StorePath,
                          first: ClosureOutcome, inputs: Progress)
    requires Bounded(o) && node in g && inputs.result.Ok?
    requires before <= inputs.world.trace && NoneFatal(fallback, o, inputs.world.trace, |before|, |inputs.world.trace|)
    requires !first.ClosureComplete? && SubstitutionStop(fallback, node, first).None?
    ensures Settles(fallback, o, g, before, FinishNode(fallback, o, node, g[node].drv, first, inputs))
  {
    var w, drv := inputs.world, g[node].drv;
    SubstituteSettles(fallback, o, g, w, node);
    var retried :=
      if first.ClosureIncomplete? then SubstituteClosure(o, w, drv.OutputPaths())
      else Attempt(first, {}, w);
    var stop := SubstitutionStop(fallback, node, retried.outcome);
    if stop.Some? {
      SettlesLater(fallback, o, g, before, w.trace, Progress(Err(stop.value), retried.world));
    } else {
      FatalStays(fallback, o, w.trace, retried.world.trace, |before|, |w.trace|);
      assert NoneFatal(fallback, o, retried.world.trace, |before|, |retried.world.trace|);
      if retried.outcome.ClosureComplete? {
        ReportQuiet(fallback, o, before, retried.world, Substituted, drv);
      } else {
        BuildSettles(fallback, o, g, before, node, retried.world, inputs.result.value);
      }
    }
  }

  lemma BuildSettles(fallback: Fallback, o: Outside, g: DepGraph, before: Trace, node: StorePath, w: World,
                     done: set<StorePath>)
    requires Bounded(o) && node in g && before <= w.trace && NoneFatal(fallback, o, w.trace, |before|, |w.trace|)
    ensures var drv := g[node].drv;
            var built := o.build(w.trace, node);
            var w1 := AfterBuild(o, w, node, drv);
            Settles(fallback, o, g, before,
                    if built.Err? then Progress(Err(BuildFailed(built.error)), w1)
                    else Progress(Ok(done), AfterReport(o, w1, Built, drv)))
  {
    var w1 := AfterBuild(o, w, node, g[node].drv);
    FatalStays(fallback, o, w.trace, w1.trace, |before|, |w.trace|);
    assert w1.trace[..|w.trace|] == w.trace;
    if o.build(w.trace, node).Ok? {
      assert NoneFatal(fallback, o, w1.trace, |before|, |w1.trace|);
      ReportQuiet(fallback, o, before, w1, Built, g[node].drv);
    }
  }

  lemma {:induction false} RealiseAllSettles(fallback: Fallback, o: Outside, g: DepGraph, w: World,
                                             visited: set<StorePath>, nodes: seq<StorePath>)
    requires Bounded(o)
    ensures Settles(fallback, o, g, w.trace, RealiseAll(fallback, o, g, w, visited, nodes))
    decreases |g.Keys - visited|, 1, |nodes|
  {
    if nodes != [] {
      RealiseNodeSettles(fallback, o, g, w, visited, nodes[0]);
      var one := RealiseNode(fallback, o, g, w, visited, nodes[0]);
      if one.result.Ok? {
        SubsetSize(g.Keys - one.result.value, g.Keys - visited);
        RealiseAllSettles(fallback, o, g, one.world, one.result.value, nodes[1..]);
        SettlesLater(fallback, o, g, w.trace, one.world.trace,
                     RealiseAll(fallback, o, g, one.world, one.result.value, nodes[1..]));
      }
    }
  }

  /** A run succeeds exactly when nothing fatal happens in it; otherwise it ends at
      the first fatal effect, with nothing done after, and reports that one. */
  lemma EndsAtFirstFatal(fallback: Fallback, o: Outside, g: DepGraph, store: Store, root: StorePath)
    requires Bounded(o)
    ensures var r := Realise(fallback, o, g, store, root);
            var t := r.world.trace;
            && (r.result.Ok? <==> NoneFatal(fallback, o, t, 0, |t|))
            && (r.result.Err? ==>
                  && |t| > 0 && NoneFatal(fallback, o, t, 0, |t| - 1)
                  && Fatal(fallback, o, t, |t| - 1) && Reported(g, o, t, |t| - 1, r.result.error))
  {
    RealiseNodeSettles(fallback, o, g, World(store, []), {}, root);
  }
}
