/** Root-first realisation of a derivation graph (src/Nix/Realise.hs).

    The store, the caches and the builder answer through `Outside`, whose
    answers are arbitrary functions of everything that happened before, so a
    theorem over every `Outside` covers every behaviour of the world. */
module Realisation {
  import opened Basics
  import opened Sorting
  import opened Derivations
  import opened Digraph
  import opened DependencyGraph

  /** The valid paths, each with the references registered for it. */
  type Store = map<StorePath, set<StorePath>>

  /** An offer's references only ever matter as a set. */
  datatype Offer = Offered(references: set<StorePath>) | NotOffered | QueryFailed(why: Text)

  datatype FetchOutcome = Fetched | FetchMissed | FetchFailed

  datatype ClosureOutcome =
    | ClosureComplete
    | ClosureUnavailable
    | ClosureIncomplete
    | ClosureFailed
    | ClosureQueryFailed(why: Text)

  datatype Fallback = NoFallback | BuildFromSource

  datatype RealiseFailure =
    | BuildFailed(report: Text)
    | CacheQueryFailed(why: Text)
    | SubstitutesFailed(drvPath: StorePath)

  datatype Realised = AlreadyValid | Substituted | Built

  /** What a run did; fetches and builds carry the store they were issued on. */
  datatype Event =
    | Query(path: StorePath)
    | Fetch(batch: seq<StorePath>, outcome: FetchOutcome, before: Store)
    | Build(node: StorePath, succeeded: bool, before: Store)
    | Report(status: Realised, drv: Derivation)

  type Trace = seq<Event>

  datatype World = World(store: Store, trace: Trace)

  /** Everything the decisions do not control.
      `universe` bounds what the caches can name, `declared` is what a fetched
      path registers, `fetch` whether a batch arrives, `scanned` what the scan of
      a built output hits, and `meanwhile` what other processes registered since
      the last effect. */
  datatype Outside = Outside(
    universe: set<StorePath>,
    declared: StorePath -> set<StorePath>,
    offer: (Trace, StorePath) -> Offer,
    fetch: (Trace, seq<StorePath>) -> FetchOutcome,
    build: (Trace, StorePath) -> Result<(), Text>,
    scanned: (Trace, StorePath) -> set<StorePath>,
    meanwhile: Trace -> Store)

  /** The caches name finitely many paths. */
  ghost predicate Bounded(o: Outside) {
    forall h, p :: o.offer(h, p).Offered? ==> o.offer(h, p).references <= o.universe
  }

  // ---- Effects ----------------------------------------------------------

  /** One effect: its event, and what it and others registered.  A registered
      path keeps its row. */
  function Elapse(o: Outside, w: World, e: Event, registered: Store): World {
    World(registered + o.meanwhile(w.trace) + w.store, w.trace + [e])
  }

  function FetchRows(o: Outside, batch: seq<StorePath>, outcome: FetchOutcome): Store {
    if outcome.Fetched? then map p | p in batch :: o.declared(p) else map[]
  }

  /** A build scans for its inputs' closure and its own outputs, so that is all
      an output can record. */
  function BuildRows(o: Outside, w: World, outputs: seq<StorePath>): Store {
    map p | p in outputs :: o.scanned(w.trace, p) * (w.store.Keys + Elements(outputs))
  }

  function AfterQuery(o: Outside, w: World, p: StorePath): World {
    Elapse(o, w, Query(p), map[])
  }

  /** A registration names no unregistered referent; a path that became valid
      meanwhile is not registered again. */
  predicate Registers(o: Outside, w: World, batch: seq<StorePath>) {
    var valid := w.store.Keys + o.meanwhile(w.trace).Keys;
    forall p :: p in batch && p !in valid ==> o.declared(p) <= valid + Elements(batch)
  }

  /** A batch that arrived and is refused its registration has failed. */
  function FetchAnswer(o: Outside, w: World, batch: seq<StorePath>): FetchOutcome {
    var arrived := o.fetch(w.trace, batch);
    if arrived.Fetched? && !Registers(o, w, batch) then FetchFailed else arrived
  }

  function AfterFetch(o: Outside, w: World, batch: seq<StorePath>): World {
    var outcome := FetchAnswer(o, w, batch);
    Elapse(o, w, Fetch(batch, outcome, w.store), FetchRows(o, batch, outcome))
  }

  function AfterBuild(o: Outside, w: World, node: StorePath, drv: Derivation): World {
    var ok := o.build(w.trace, node).Ok?;
    Elapse(o, w, Build(node, ok, w.store), if ok then BuildRows(o, w, drv.OutputPaths()) else map[])
  }

  function AfterReport(o: Outside, w: World, status: Realised, drv: Derivation): World {
    Elapse(o, w, Report(status, drv), map[])
  }

  // ---- Substituting a closure -------------------------------------------

  datatype Asked = Asked(answer: Result<Option<set<StorePath>>, Text>, world: World)

  /** Ask about each path, up to the first query that fails: every reference
      declared, or `None` when some path is not offered. */
  function AskAll(o: Outside, w: World, paths: seq<StorePath>): Asked
    decreases |paths|
  {
    if paths == [] then Asked(Ok(Some({})), w)
    else
      var offer := o.offer(w.trace, paths[0]);
      var w1 := AfterQuery(o, w, paths[0]);
      if offer.QueryFailed? then Asked(Err(offer.why), w1)
      else
        var rest := AskAll(o, w1, paths[1..]);
        if rest.answer.Err? then rest
        else if offer.Offered? && rest.answer.value.Some? then
          rest.(answer := Ok(Some(offer.references + rest.answer.value.value)))
        else rest.(answer := Ok(None))
  }

  function FetchedClosure(outcome: FetchOutcome): ClosureOutcome {
    match outcome
    case Fetched => ClosureComplete
    case FetchMissed => ClosureUnavailable
    case FetchFailed => ClosureFailed
  }

  datatype Attempt = Attempt(outcome: ClosureOutcome, visited: set<StorePath>, world: World)

  /** The paths not valid yet, in order. */
  function Missing(w: World, paths: seq<StorePath>): (m: seq<StorePath>)
    ensures forall p :: p in m <==> p in paths && p !in w.store
  {
    if paths == [] then []
    else (if paths[0] in w.store then [] else [paths[0]]) + Missing(w, paths[1..])
  }

  function ClosureOf(o: Outside, w: World, visited: set<StorePath>, paths: seq<StorePath>): (a: Attempt)
    requires Bounded(o)
    ensures visited <= a.visited
    decreases |o.universe - visited|, 1, 0
  {
    var missing := Missing(w, paths);
    var asked := AskAll(o, w, missing);
    if missing == [] then Attempt(ClosureComplete, visited, w)
    else if asked.answer.Err? then Attempt(ClosureQueryFailed(asked.answer.error), visited, asked.world)
    else if asked.answer.value.None? then Attempt(ClosureUnavailable, visited, asked.world)
    else
      AskedAreBounded(o, w, missing);
      var outside := asked.answer.value.value - Elements(missing);
      var held := ReferencesFirst(o, asked.world, visited, AscendingPaths(outside));
      if held.outcome.ClosureComplete? then
        Attempt(FetchedClosure(FetchAnswer(o, held.world, missing)), held.visited, AfterFetch(o, held.world, missing))
      else held
  }

  function ReferencesFirst(o: Outside, w: World, visited: set<StorePath>, references: seq<StorePath>): (a: Attempt)
    requires Bounded(o) && Elements(references) <= o.universe
    ensures visited <= a.visited
    decreases |o.universe - visited|, 0, |references|
  {
    if references == [] then Attempt(ClosureComplete, visited, w)
    else
      var r, rest := references[0], references[1..];
      if r in visited then ReferencesFirst(o, w, visited, rest)
      else
        assert r in o.universe - visited;
        assert o.universe - (visited + {r}) == (o.universe - visited) - {r};
        var a := ClosureOf(o, w, visited + {r}, [r]);
        SubsetSize(o.universe - a.visited, o.universe - (visited + {r}));
        match a.outcome
        case ClosureComplete => ReferencesFirst(o, a.world, a.visited, rest)
        case ClosureUnavailable => a.(outcome := ClosureIncomplete)
        case ClosureIncomplete => a
        case ClosureFailed => a
        case ClosureQueryFailed(_) => a
  }

  function SubstituteClosure(o: Outside, w: World, paths: seq<StorePath>): Attempt
    requires Bounded(o)
  {
    ClosureOf(o, w, Elements(paths), paths)
  }

  lemma {:induction false} AskedAreBounded(o: Outside, w: World, paths: seq<StorePath>)
    requires Bounded(o)
    ensures var answer := AskAll(o, w, paths).answer;
            answer.Ok? && answer.value.Some? ==> answer.value.value <= o.universe
    decreases |paths|
  {
    if paths != [] {
      AskedAreBounded(o, AfterQuery(o, w, paths[0]), paths[1..]);
    }
  }

  // ---- Realising a graph ------------------------------------------------

  datatype Progress = Progress(result: Result<set<StorePath>, RealiseFailure>, world: World)

  /** A derivation without outputs is never finished. */
  predicate AllOutputsValid(w: World, drv: Derivation) {
    drv.OutputPaths() != [] && forall p :: p in drv.OutputPaths() ==> p in w.store
  }

  function SubstitutionStop(fallback: Fallback, drvPath: StorePath, outcome: ClosureOutcome): Option<RealiseFailure> {
    match outcome
    case ClosureQueryFailed(why) => Some(CacheQueryFailed(why))
    case ClosureFailed => if fallback.NoFallback? then Some(SubstitutesFailed(drvPath)) else None
    case ClosureComplete => None
    case ClosureUnavailable => None
    case ClosureIncomplete => None
  }

  function RealiseNode(fallback: Fallback, o: Outside, g: DepGraph, w: World, visited: set<StorePath>,
                       node: StorePath): (r: Progress)
    requires Bounded(o)
    ensures r.result.Ok? ==> visited <= r.result.value
    decreases |g.Keys - visited|, 0, 1
  {
    if node in visited || node !in g then Progress(Ok(visited), w)
    else
      var drv := g[node].drv;
      if AllOutputsValid(w, drv) then Progress(Ok(visited + {node}), AfterReport(o, w, AlreadyValid, drv))
      else
        var first := SubstituteClosure(o, w, drv.OutputPaths());
        if first.outcome.ClosureComplete?
          then Progress(Ok(visited + {node}), AfterReport(o, first.world, Substituted, drv))
        else
          var stop := SubstitutionStop(fallback, node, first.outcome);
          if stop.Some? then Progress(Err(stop.value), first.world)
          else BuildFromInputs(fallback, o, g, visited, node, first)
  }

  function BuildFromInputs(fallback: Fallback, o: Outside, g: DepGraph, visited: set<StorePath>, node: StorePath,
                           first: Attempt): (r: Progress)
    requires Bounded(o) && node in g && node !in visited
    ensures r.result.Ok? ==> visited <= r.result.value
    decreases |g.Keys - visited|, 0, 0
  {
    assert g.Keys - (visited + {node}) == (g.Keys - visited) - {node};
    var inputs := RealiseAll(fallback, o, g, first.world, visited + {node}, DirectDeps(g, node));
    if inputs.result.Err? then inputs
    else FinishNode(fallback, o, node, g[node].drv, first.outcome, inputs)
  }

  /** What is left once a node's inputs are realised: retry a substitution
      whose closure had a hole, else build. */
  function FinishNode(fallback: Fallback, o: Outside, node: StorePath, drv: Derivation, first: ClosureOutcome,
                      inputs: Progress): (r: Progress)
    requires Bounded(o) && inputs.result.Ok?
    ensures r.result.Ok? ==> r.result.value == inputs.result.value
  {
    var retried :=
      if first.ClosureIncomplete? then SubstituteClosure(o, inputs.world, drv.OutputPaths())
      else Attempt(first, {}, inputs.world);
    var stop := SubstitutionStop(fallback, node, retried.outcome);
    if retried.outcome.ClosureComplete? then Progress(inputs.result, AfterReport(o, retried.world, Substituted, drv))
    else if stop.Some? then Progress(Err(stop.value), retried.world)
    else
      var built := o.build(retried.world.trace, node);
      var w1 := AfterBuild(o, retried.world, node, drv);
      if built.Err? then Progress(Err(BuildFailed(built.error)), w1)
      else Progress(inputs.result, AfterReport(o, w1, Built, drv))
  }

  function RealiseAll(fallback: Fallback, o: Outside, g: DepGraph, w: World, visited: set<StorePath>,
                      nodes: seq<StorePath>): (r: Progress)
    requires Bounded(o)
    ensures r.result.Ok? ==> visited <= r.result.value
    decreases |g.Keys - visited|, 1, |nodes|
  {
    if nodes == [] then Progress(Ok(visited), w)
    else
      var one := RealiseNode(fallback, o, g, w, visited, nodes[0]);
      if one.result.Err? then one
      else
        SubsetSize(g.Keys - one.result.value, g.Keys - visited);
        RealiseAll(fallback, o, g, one.world, one.result.value, nodes[1..])
  }

  function Realise(fallback: Fallback, o: Outside, g: DepGraph, store: Store, root: StorePath): Progress
    requires Bounded(o)
  {
    RealiseNode(fallback, o, g, World(store, []), {}, root)
  }
}
