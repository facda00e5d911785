/** What a run of `Realise` reports is what it did: each visited derivation once,
    by how its outputs came to be valid (src/Nix/Realise.hs). */
module RealiseReports {
  import opened Basics
  import opened Derivations
  import opened Digraph
  import opened DependencyGraph
  import opened Realisation
  import opened ClosureSafety
  import opened RealiseSafety

  // ---- The store a trace leads to ---------------------------------------

  /** What an event registered for the run itself. */
  ghost function Registered(o: Outside, g: DepGraph, before: World, e: Event): Store {
    match e
    case Fetch(batch, outcome, _) => FetchRows(o, batch, outcome)
    case Build(node, succeeded, _) => if succeeded
      && node in g then BuildRows(o, before, g[node].drv.OutputPaths()) else map[]
    case _ => map[]
  }

  /** A store after a trace, from the store the run started with. */
  ghost function StoreAfter(o: Outside, g: DepGraph, start: Store, t: Trace): Store {
    if t == [] then start
    else
      var before := World(StoreAfter(o, g, start, t[..|t| - 1]), t[..|t| - 1]);
      Elapse(o, before, t[|t| - 1], Registered(o, g, before, t[|t| - 1])).store
  }

  /** Where a run was once it had done so much of a trace. */
  ghost function At(o: Outside, g: DepGraph, start: Store, t: Trace, k: nat): World
    requires k <= |t|
  {
    World(StoreAfter(o, g, start, t[..k]), t[..k])
  }

  // ---- What a report says -----------------------------------------------

  /** A node visited when the trace had a length, and reported at an index of it. */
  datatype Visit = Visit(node: StorePath, from: nat, at: nat)

  /** Between two points of a trace a node's outputs were substituted: an attempt
      on them, made on the store of the first, that completed at the second. */
  ghost predicate Completes(o: Outside, g: DepGraph, start: Store, t: Trace, n: StorePath, j: nat, k: nat)
    requires Bounded(o) && n in g && j <= k <= |t|
  {
    var a := SubstituteClosure(o, At(o, g, start, t, j), g[n].drv.OutputPaths());
    a.outcome.ClosureComplete? && a.world.trace == t[..k]
  }

  /** The last thing done in a visit was a build. */
  ghost predicate BuiltLast(t: Trace, v: Visit)
    requires v.from <= v.at <= |t|
  {
    v.from < v.at && t[v.at - 1].Build?
  }

  /** A node not finished when visited is first tried as a substitution, which ends the
      visit if it completes. */
  ghost predicate TriedFirst(o: Outside, g: DepGraph, start: Store, t: Trace, v: Visit)
    requires Bounded(o) && v.node in g && v.from <= v.at <= |t|
  {
    var first := SubstituteClosure(o, At(o, g, start, t, v.from), g[v.node].drv.OutputPaths());
    first.world.trace <= t[..v.at] && (first.outcome.ClosureComplete? ==> first.world.trace == t[..v.at])
  }

  /** A visit's report is of the node's own derivation, and says how the node came
      to be realised: nothing was done and its outputs, at least one, were valid when
      it was visited; or the last thing done was its own successful build; or, with
      neither, an attempt to substitute them completed just before. */
  ghost predicate Truthful(o: Outside, g: DepGraph, start: Store, t: Trace, v: Visit)
    requires Bounded(o)
  {
    && v.node in g && v.from <= v.at < |t| && t[v.at].Report? && t[v.at].drv == g[v.node].drv
    && var status := t[v.at].status;
       && (status.AlreadyValid? <==> AllOutputsValid(At(o, g, start, t, v.from), g[v.node].drv))
       && (if status.AlreadyValid? then v.from == v.at else TriedFirst(o, g, start, t, v))
       && (status.Built? <==> BuiltLast(t, v) && t[v.at - 1].node == v.node && t[v.at - 1].succeeded)
       && (status.Substituted? <==>
             && !AllOutputsValid(At(o, g, start, t, v.from), g[v.node].drv) && !BuiltLast(t, v)
             && exists j :: v.from <= j <= v.at && Completes(o, g, start, t, v.node, j, v.at))
  }

  lemma AtStays(o: Outside, g: DepGraph, start: Store, t: Trace, t': Trace, k: nat)
    requires t <= t' && k <= |t|
    ensures At(o, g, start, t, k) == At(o, g, start, t', k)
  {
    assert t[..k] == t'[..k];
  }

  lemma TruthfulStays(o: Outside, g: DepGraph, start: Store, t: Trace, t': Trace, v: Visit)
    requires Bounded(o) && t <= t' && Truthful(o, g, start, t, v)
    ensures Truthful(o, g, start, t', v)
  {
    AtStays(o, g, start, t, t', v.from);
    assert t[..v.at] == t'[..v.at];
    forall j | v.from <= j <= v.at
      ensures Completes(o, g, start, t, v.node, j, v.at) <==> Completes(o, g, start, t', v.node, j, v.at)
    {
      AtStays(o, g, start, t, t', j);
    }
  }

  // ---- The visits of a run ----------------------------------------------

  /** What it takes for a visit's report to be true of a trace that ends with it. */
  type Truth = (Trace, Visit) -> bool

  function Nodes(vs: seq<Visit>): set<StorePath> {
    set v | v in vs :: v.node
  }

  ghost predicate Unreported(t: Trace, from: nat) {
    forall i :: from <= i < |t| ==> !t[i].Report?
  }

  /** What a trace gained from some point on: its reports are those of some visits in
      turn, each truthful and of a node not visited before. */
  ghost predicate Chronicle(truth: Truth, before: nat, visited: set<StorePath>, t: Trace,
                            vs: seq<Visit>)
    decreases |vs|
  {
    && before <= |t|
    && if vs == [] then Unreported(t, before)
       else
         var v, earlier := vs[|vs| - 1], vs[..|vs| - 1];
         && before <= v.from <= v.at < |t| && Unreported(t, v.at + 1)
         && truth(t[..v.at + 1], v) && v.node !in visited + Nodes(earlier)
         && Chronicle(truth, before, visited, t[..v.at], earlier)
  }

  lemma NodesTogether(vs: seq<Visit>, later: seq<Visit>)
    ensures Nodes(vs + later) == Nodes(vs) + Nodes(later)
  {
    forall n | n in Nodes(vs) + Nodes(later)
      ensures n in Nodes(vs + later)
    {
      var v :| (v in vs || v in later) && v.node == n;
      assert v in vs + later;
    }
  }

  lemma {:induction false} NewNodes(truth: Truth, before: nat, visited: set<StorePath>,
                                    t: Trace, vs: seq<Visit>)
    requires Chronicle(truth, before, visited, t, vs)
    ensures Nodes(vs) !! visited
    decreases |vs|
  {
    if vs != [] {
      var v, earlier := vs[|vs| - 1], vs[..|vs| - 1];
      NewNodes(truth, before, visited, t[..v.at], earlier);
      assert vs == earlier + [v];
      NodesTogether(earlier, [v]);
    }
  }

  lemma {:induction false} WiderTold(truth: Truth, before: nat, visited: set<StorePath>,
                                     seen: set<StorePath>, t: Trace, vs: seq<Visit>)
    requires visited <= seen && Chronicle(truth, before, seen, t, vs)
    ensures Chronicle(truth, before, visited, t, vs)
    decreases |vs|
  {
    if vs != [] {
      WiderTold(truth, before, visited, seen, t[..vs[|vs| - 1].at], vs[..|vs| - 1]);
    }
  }

  /** A stretch without reports, after one. */
  lemma ThenQuiet(truth: Truth, before: nat, visited: set<StorePath>, t: Trace, vs: seq<Visit>,
                  t': Trace)
    requires t <= t' && Chronicle(truth, before, visited, t, vs) && Unreported(t', |t|)
    ensures Chronicle(truth, before, visited, t', vs)
  {
    var from := if vs == [] then before else vs[|vs| - 1].at + 1;
    UnreportedTogether(t, t', from);
    if vs != [] {
      assert t'[..from] == t[..from] && t'[..from - 1] == t[..from - 1];
    }
  }

  lemma UnreportedTogether(t: Trace, t': Trace, from: nat)
    requires t <= t' && from <= |t| && Unreported(t, from) && Unreported(t', |t|)
    ensures Unreported(t', from)
  {
    assert forall i :: 0 <= i < |t| ==> t'[i] == t[i];
  }

  /** A stretch without reports, before one. */
  lemma {:induction false} QuietThen(truth: Truth, before: nat, from: nat, visited: set<StorePath>, t: Trace,
                                     vs: seq<Visit>)
    requires before <= from && Chronicle(truth, from, visited, t, vs)
    requires forall i :: before <= i < from ==> !t[i].Report?
    ensures Chronicle(truth, before, visited, t, vs)
    decreases |vs|
  {
    if vs != [] {
      var v := vs[|vs| - 1];
      assert forall i :: before <= i < from ==> t[..v.at][i] == t[i];
      QuietThen(truth, before, from, visited, t[..v.at], vs[..|vs| - 1]);
    }
  }

  lemma StillNew(vs: seq<Visit>, later: seq<Visit>, visited: set<StorePath>, deeper: set<StorePath>, n: StorePath)
    requires visited + Nodes(vs) <= deeper && n !in deeper + Nodes(later)
    ensures n !in visited + Nodes(vs + later)
  {
    NodesTogether(vs, later);
  }

  /** Two stretches of a run one after the other. */
  lemma {:induction false} Together(truth: Truth, before: nat, visited: set<StorePath>,
                                    t: Trace, vs: seq<Visit>, deeper: set<StorePath>, t': Trace, later: seq<Visit>)
    requires t <= t' && visited + Nodes(vs) <= deeper
    requires Chronicle(truth, before, visited, t, vs) && Chronicle(truth, |t|, deeper, t', later)
    ensures Chronicle(truth, before, visited, t', vs + later)
    decreases |later|
  {
    if later == [] {
      ThenQuiet(truth, before, visited, t, vs, t');
      assert vs + later == vs;
    } else {
      var v, earlier := later[|later| - 1], later[..|later| - 1];
      assert t <= t'[..v.at];
      Together(truth, before, visited, t, vs, deeper, t'[..v.at], earlier);
      StillNew(vs, earlier, visited, deeper, v.node);
      assert vs + later == vs + earlier + [v];
      ThenOne(truth, before, visited, t', vs + earlier, v, vs + later);
    }
  }

  lemma ThenOne(truth: Truth, before: nat, visited: set<StorePath>, t: Trace, earlier: seq<Visit>, v: Visit,
                vs: seq<Visit>)
    requires before <= v.from <= v.at < |t| && Unreported(t, v.at + 1) && truth(t[..v.at + 1], v)
    requires v.node !in visited + Nodes(earlier) && Chronicle(truth, before, visited, t[..v.at], earlier)
    requires vs == earlier + [v]
    ensures Chronicle(truth, before, visited, t, vs)
  {
    assert vs[|vs| - 1] == v && vs[..|vs| - 1] == earlier;
  }

  /** A node's own report, after what its inputs reported. */
  lemma ThenReported(truth: Truth, before: nat, visited: set<StorePath>, t: Trace,
                     vs: seq<Visit>, t': Trace, v: Visit)
    requires |t'| == |t| + 1 && t <= t' && v.node !in visited && before <= v.from <= v.at == |t|
    requires Chronicle(truth, before, visited + {v.node}, t, vs) && truth(t', v)
    ensures Chronicle(truth, before, visited, t', vs + [v])
  {
    NewNodes(truth, before, visited + {v.node}, t, vs);
    WiderTold(truth, before, visited, visited + {v.node}, t, vs);
    assert t'[..v.at] == t && t'[..v.at + 1] == t';
    ThenOne(truth, before, visited, t', vs, v, vs + [v]);
  }

  ghost predicate ReportedBy(vs: seq<Visit>, i: nat) {
    exists v :: v in vs && v.at == i
  }

  /** In order of their reports, each of another node. */
  ghost predicate InTurn(vs: seq<Visit>) {
    forall i, j :: 0 <= i < j < |vs| ==> vs[i].at < vs[j].at && vs[i].node != vs[j].node
  }

  ghost predicate Reported(truth: Truth, t: Trace, v: Visit) {
    v.at < |t| && truth(t[..v.at + 1], v)
  }

  /** What a chronicle says of all of a trace. */
  lemma {:induction false} Chronicled(truth: Truth, visited: set<StorePath>, t: Trace, vs: seq<Visit>)
    requires Chronicle(truth, 0, visited, t, vs)
    ensures (forall v :: v in vs ==> Reported(truth, t, v)) && InTurn(vs)
    ensures forall i :: 0 <= i < |t| && t[i].Report? ==> ReportedBy(vs, i)
    decreases |vs|
  {
    if vs != [] {
      var v, earlier := vs[|vs| - 1], vs[..|vs| - 1];
      Chronicled(truth, visited, t[..v.at], earlier);
      assert vs == earlier + [v];
      LastInTurn(truth, t[..v.at], earlier, v);
      LastReported(truth, t, earlier, v);
    }
  }

  lemma LastReported(truth: Truth, t: Trace, earlier: seq<Visit>, v: Visit)
    requires v.at < |t| && Unreported(t, v.at + 1) && truth(t[..v.at + 1], v)
    requires forall u :: u in earlier ==> Reported(truth, t[..v.at], u)
    requires forall i :: 0 <= i < v.at && t[..v.at][i].Report? ==> ReportedBy(earlier, i)
    ensures forall u :: u in earlier + [v] ==> Reported(truth, t, u)
    ensures forall i :: 0 <= i < |t| && t[i].Report? ==> ReportedBy(earlier + [v], i)
  {
    forall u | u in earlier + [v]
      ensures Reported(truth, t, u)
    {
      if u in earlier {
        assert t[..v.at][..u.at + 1] == t[..u.at + 1];
      }
    }
    forall i | 0 <= i < |t| && t[i].Report?
      ensures ReportedBy(earlier + [v], i)
    {
      if i < v.at {
        assert t[..v.at][i] == t[i];
        var u :| u in earlier && u.at == i;
        assert u in earlier + [v];
      } else {
        assert v in earlier + [v];
      }
    }
  }

  lemma LastInTurn(truth: Truth, t: Trace, earlier: seq<Visit>, v: Visit)
    requires (forall u :: u in earlier ==> Reported(truth, t, u)) && InTurn(earlier)
    requires v.at == |t| && v.node !in Nodes(earlier)
    ensures InTurn(earlier + [v])
  {
    var all := earlier + [v];
    forall i, j | 0 <= i < j < |all|
      ensures all[i].at < all[j].at && all[i].node != all[j].node
    {
      if j == |earlier| {
        assert all[i] in earlier && Reported(truth, t, all[i]);
        assert all[i].node in Nodes(earlier);
      }
    }
  }

  // ---- Every run tells the truth ----------------------------------------

  /** The first attempt, made on `w`, lies between it and `w1`; it is the one made
      on `w1`, or did not complete. */
  ghost predicate TriedBefore(o: Outside, w: World, paths: seq<StorePath>, w1: World, failed: bool)
    requires Bounded(o)
  {
    var first := SubstituteClosure(o, w, paths);
    (!failed && w1 == w) || (first.world.trace <= w1.trace && !first.outcome.ClosureComplete?)
  }

  ghost predicate Spelled(t: Trace, v: Visit) { true }

  ghost predicate SpelledTry(w: World, paths: seq<StorePath>, w1: World, failed: bool) { true }

  ghost predicate SpelledStore(w: World) { true }

  /** What a proof reads of a run, each part spelled out only where `Spelled`,
      `SpelledStore` or `SpelledTry` asks for it: which reports are true, which worlds
      its trace leads to, and what was tried first. */
  datatype Reading = Reading(
    truth: Truth,
    follows: World -> bool,
    tried: (World, seq<StorePath>, World, bool) -> bool)

  ghost predicate IsReading(reading: Reading, o: Outside, g: DepGraph, start: Store)
    requires Bounded(o)
  {
    && (forall t, v {:trigger Spelled(t, v)} ::
          Spelled(t, v) ==> reading.truth(t, v) == Truthful(o, g, start, t, v))
    && StoresRead(reading, o, g, start)
    && (forall w, paths, w1, failed {:trigger SpelledTry(w, paths, w1, failed)} ::
          SpelledTry(w, paths, w1, failed) ==>
            reading.tried(w, paths, w1, failed) == TriedBefore(o, w, paths, w1, failed))
  }

  ghost predicate StoresRead(reading: Reading, o: Outside, g: DepGraph, start: Store) {
    forall w {:trigger SpelledStore(w)} ::
      SpelledStore(w) ==> reading.follows(w) == (w.store == StoreAfter(o, g, start, w.trace))
  }

  lemma ElapseFollows(o: Outside, g: DepGraph, start: Store, reading: Reading, w: World, e: Event)
    requires StoresRead(reading, o, g, start) && reading.follows(w)
    ensures reading.follows(Elapse(o, w, e, Registered(o, g, w, e)))
  {
    assert SpelledStore(w) && SpelledStore(Elapse(o, w, e, Registered(o, g, w, e)));
    assert (w.trace + [e])[..|w.trace|] == w.trace;
    assert World(w.store, w.trace) == w;
  }

  lemma {:induction false} AskAllFollows(o: Outside, g: DepGraph, start: Store, reading: Reading, w: World,
                                         paths: seq<StorePath>)
    requires StoresRead(reading, o, g, start) && reading.follows(w)
    ensures reading.follows(AskAll(o, w, paths).world)
    decreases |paths|
  {
    if paths != [] {
      ElapseFollows(o, g, start, reading, w, Query(paths[0]));
      AskAllFollows(o, g, start, reading, AfterQuery(o, w, paths[0]), paths[1..]);
    }
  }

  lemma FetchFollows(o: Outside, g: DepGraph, start: Store, reading: Reading, w: World, batch: seq<StorePath>)
    requires StoresRead(reading, o, g, start) && reading.follows(w)
    ensures reading.follows(AfterFetch(o, w, batch))
  {
    ElapseFollows(o, g, start, reading, w, Fetch(batch, FetchAnswer(o, w, batch), w.store));
  }

  lemma {:induction false} ClosureOfFollows(o: Outside, g: DepGraph, start: Store, reading: Reading, w: World,
                                            visited: set<StorePath>,
                                            paths: seq<StorePath>)
    requires Bounded(o) && StoresRead(reading, o, g, start) && reading.follows(w)
    ensures reading.follows(ClosureOf(o, w, visited, paths).world)
    decreases |o.universe - visited|, 1, 0
  {
    var missing := Missing(w, paths);
    var asked := AskAll(o, w, missing);
    AskAllFollows(o, g, start, reading, w, missing);
    if missing != [] && asked.answer.Ok? && asked.answer.value.Some? {
      AskedAreBounded(o, w, missing);
      ReferencesFirstFollows(o, g, start, reading, asked.world, visited, References(asked, missing));
      var held := ReferencesFirst(o, asked.world, visited, References(asked, missing));
      if held.outcome.ClosureComplete? {
        FetchFollows(o, g, start, reading, held.world, missing);
      }
    }
  }

  lemma {:induction false} ReferencesFirstFollows(o: Outside, g: DepGraph, start: Store, reading: Reading, w: World,
                                                  visited: set<StorePath>, references: seq<StorePath>)
    requires Bounded(o) && StoresRead(reading, o, g, start) && reading.follows(w) && Elements(references) <= o.universe
    ensures reading.follows(ReferencesFirst(o, w, visited, references).world)
    decreases |o.universe - visited|, 0, |references|
  {
    if references != [] {
      var r, rest := references[0], references[1..];
      if r in visited {
        ReferencesFirstFollows(o, g, start, reading, w, visited, rest);
      } else {
        Shrinks(o, visited, r);
        ClosureOfFollows(o, g, start, reading, w, visited + {r}, [r]);
        var a := ClosureOf(o, w, visited + {r}, [r]);
        SubsetSize(o.universe - a.visited, o.universe - (visited + {r}));
        if a.outcome.ClosureComplete? {
          ReferencesFirstFollows(o, g, start, reading, a.world, a.visited, rest);
        }
      }
    }
  }

  lemma AtIs(o: Outside, g: DepGraph, start: Store, reading: Reading, w: World, t: Trace)
    requires StoresRead(reading, o, g, start) && reading.follows(w) && w.trace <= t
    ensures At(o, g, start, t, |w.trace|) == w
  {
    assert SpelledStore(w) && t[..|w.trace|] == w.trace;
  }

  /** A trace grew, and not by a build last. */
  ghost predicate NotByBuild(t: Trace, t': Trace) {
    t <= t' && (t' == t || !t'[|t'| - 1].Build?)
  }

  ghost predicate ReportsLast(t: Trace, t': Trace) {
    t <= t' && (t' == t || t'[|t'| - 1].Report?)
  }

  lemma ReportsLastTogether(a: Trace, b: Trace, c: Trace)
    requires ReportsLast(a, b) && ReportsLast(b, c)
    ensures ReportsLast(a, c)
  {
  }

  /** A stretch of a run from `w`: its visits are chronicled, and a success visited
      exactly those nodes and ended with a report if it did anything. */
  ghost predicate Told(o: Outside, g: DepGraph, start: Store, reading: Reading, w: World, visited: set<StorePath>,
                       r: Progress,
                       vs: seq<Visit>)
    requires Bounded(o)
  {
    var t := r.world.trace;
    && reading.follows(r.world) && w.trace <= t
    && Chronicle(reading.truth, |w.trace|, visited, t, vs)
    && (r.result.Ok? ==> r.result.value == visited + Nodes(vs) && ReportsLast(w.trace, t))
  }

  lemma SubstituteTold(o: Outside, g: DepGraph, start: Store, reading: Reading, w: World, paths: seq<StorePath>)
    requires Bounded(o) && StoresRead(reading, o, g, start) && reading.follows(w)
    ensures var a := SubstituteClosure(o, w, paths);
            reading.follows(a.world) && OnlySubstitutes(w, a.world)
  {
    ClosureOfFollows(o, g, start, reading, w, Elements(paths), paths);
    ClosureOfSubstitutes(o, w, Elements(paths), paths);
  }

  lemma ReportFollows(o: Outside, g: DepGraph, start: Store, reading: Reading, w: World, status: Realised,
                      drv: Derivation)
    requires StoresRead(reading, o, g, start) && reading.follows(w)
    ensures reading.follows(AfterReport(o, w, status, drv))
  {
    ElapseFollows(o, g, start, reading, w, Report(status, drv));
  }

  lemma BuildFollows(o: Outside, g: DepGraph, start: Store, reading: Reading, w: World, node: StorePath)
    requires StoresRead(reading, o, g, start) && reading.follows(w) && node in g
    ensures reading.follows(AfterBuild(o, w, node, g[node].drv))
  {
    ElapseFollows(o, g, start, reading, w, Build(node, o.build(w.trace, node).Ok?, w.store));
  }

  /** A truthful report ends a node's visit. */
  lemma ReportTold(o: Outside, g: DepGraph, start: Store, reading: Reading, w: World, visited: set<StorePath>,
                   w1: World,
                   inputs: seq<Visit>, status: Realised, v: Visit, done: set<StorePath>) returns (vs: seq<Visit>)
    requires Bounded(o) && StoresRead(reading, o, g, start)
    requires reading.follows(w1) && w.trace <= w1.trace && v.node in g && v.node !in visited
    requires v.from == |w.trace| && v.at == |w1.trace|
    requires Chronicle(reading.truth, |w.trace|, visited + {v.node}, w1.trace, inputs)
    requires reading.truth(AfterReport(o, w1, status, g[v.node].drv).trace, v)
    requires done == visited + {v.node} + Nodes(inputs)
    ensures Told(o, g, start, reading, w, visited, Progress(Ok(done), AfterReport(o, w1, status, g[v.node].drv)), vs)
  {
    var w2 := AfterReport(o, w1, status, g[v.node].drv);
    ReportFollows(o, g, start, reading, w1, status, g[v.node].drv);
    ThenReported(reading.truth, |w.trace|, visited, w1.trace, inputs, w2.trace, v);
    vs := inputs + [v];
    NodesTogether(inputs, [v]);
    assert Nodes([v]) == {v.node};
  }

  lemma ValidTruthful(o: Outside, g: DepGraph, start: Store, reading: Reading, w: World, node: StorePath)
    requires Bounded(o) && IsReading(reading, o, g, start)
    requires reading.follows(w) && node in g && AllOutputsValid(w, g[node].drv)
    ensures reading.truth(AfterReport(o, w, AlreadyValid, g[node].drv).trace, Visit(node, |w.trace|, |w.trace|))
  {
    assert Spelled(AfterReport(o, w, AlreadyValid, g[node].drv).trace, Visit(node, |w.trace|, |w.trace|));
    AtIs(o, g, start, reading, w, AfterReport(o, w, AlreadyValid, g[node].drv).trace);
  }

  lemma TriedOnce(o: Outside, g: DepGraph, start: Store, reading: Reading, w: World, paths: seq<StorePath>, w1: World)
    requires Bounded(o) && IsReading(reading, o, g, start)
    requires var first := SubstituteClosure(o, w, paths);
             first.world.trace <= w1.trace && !first.outcome.ClosureComplete?
    ensures reading.tried(w, paths, w1, true)
  {
    assert SpelledTry(w, paths, w1, true);
  }

  lemma TriedNow(o: Outside, g: DepGraph, start: Store, reading: Reading, w: World, paths: seq<StorePath>)
    requires Bounded(o) && IsReading(reading, o, g, start)
    ensures reading.tried(w, paths, w, false)
  {
    assert SpelledTry(w, paths, w, false);
  }

  lemma TriedLater(o: Outside, g: DepGraph, start: Store, reading: Reading, w: World, paths: seq<StorePath>, w1: World,
                   w2: World, failed: bool)
    requires Bounded(o) && IsReading(reading, o, g, start) && reading.tried(w, paths, w1, true)
    requires w1.trace <= w2.trace
    ensures reading.tried(w, paths, w2, failed)
  {
    assert SpelledTry(w, paths, w1, true) && SpelledTry(w, paths, w2, failed);
  }

  lemma TriedFirstHolds(o: Outside, g: DepGraph, start: Store, t: Trace, v: Visit, w: World, w1: World)
    requires Bounded(o) && v.node in g && v.from <= v.at <= |t| && At(o, g, start, t, v.from) == w
    requires TriedBefore(o, w, g[v.node].drv.OutputPaths(), w1, true) && w1.trace <= t[..v.at]
    ensures TriedFirst(o, g, start, t, v)
  {
  }

  /** A node not finished when visited on `w`, and substituted by an attempt on `w1`. */
  lemma SubstitutedTruthful(o: Outside, g: DepGraph, start: Store, reading: Reading, w: World, node: StorePath,
                            w1: World)
    requires Bounded(o) && IsReading(reading, o, g, start)
    requires reading.follows(w) && reading.follows(w1) && w.trace <= w1.trace
    requires node in g && !AllOutputsValid(w, g[node].drv) && reading.tried(w, g[node].drv.OutputPaths(), w1, false)
    requires NotByBuild(w.trace, w1.trace)
    requires SubstituteClosure(o, w1, g[node].drv.OutputPaths()).outcome.ClosureComplete?
    ensures var a := SubstituteClosure(o, w1, g[node].drv.OutputPaths());
            reading.truth(AfterReport(o, a.world, Substituted, g[node].drv).trace,
              Visit(node, |w.trace|, |a.world.trace|))
  {
    var drv := g[node].drv;
    var a := SubstituteClosure(o, w1, drv.OutputPaths());
    SubstituteTold(o, g, start, reading, w1, drv.OutputPaths());
    var t, v := AfterReport(o, a.world, Substituted, drv).trace, Visit(node, |w.trace|, |a.world.trace|);
    AtIs(o, g, start, reading, w, t);
    AtIs(o, g, start, reading, w1, t);
    assert t[..v.at] == a.world.trace;
    assert Completes(o, g, start, t, node, |w1.trace|, v.at);
    NotBuiltLast(w, w1, a.world, t, v);
    assert Spelled(t, v) && SpelledTry(w, drv.OutputPaths(), w1, false);
    if TriedBefore(o, w, drv.OutputPaths(), w1, true) {
      TriedFirstHolds(o, g, start, t, v, w, w1);
    }
    assert TriedFirst(o, g, start, t, v);
  }

  lemma NotBuiltLast(w: World, w1: World, w2: World, t: Trace, v: Visit)
    requires w.trace <= w1.trace && OnlySubstitutes(w1, w2) && w2.trace <= t
    requires v.from == |w.trace| && v.at == |w2.trace|
    requires NotByBuild(w.trace, w1.trace)
    ensures !BuiltLast(t, v)
  {
    if v.from < v.at {
      assert t[v.at - 1] == w2.trace[v.at - 1];
      assert |w2.trace| == |w1.trace| ==> w2.trace == w1.trace;
    }
  }

  lemma BuiltTruthful(o: Outside, g: DepGraph, start: Store, reading: Reading, w: World, node: StorePath, w1: World)
    requires Bounded(o) && IsReading(reading, o, g, start)
    requires reading.follows(w) && w.trace <= w1.trace
    requires node in g && !AllOutputsValid(w, g[node].drv) && o.build(w1.trace, node).Ok?
    requires reading.tried(w, g[node].drv.OutputPaths(), w1, true)
    ensures var w2 := AfterBuild(o, w1, node, g[node].drv);
            reading.truth(AfterReport(o, w2, Built, g[node].drv).trace, Visit(node, |w.trace|, |w2.trace|))
  {
    var w2 := AfterBuild(o, w1, node, g[node].drv);
    var t, v := AfterReport(o, w2, Built, g[node].drv).trace, Visit(node, |w.trace|, |w2.trace|);
    AtIs(o, g, start, reading, w, t);
    assert Spelled(t, v) && SpelledTry(w, g[node].drv.OutputPaths(), w1, true);
    TriedFirstHolds(o, g, start, t, v, w, w1);
    assert t[v.at - 1] == Build(node, true, w1.store) && BuiltLast(t, v);
  }

  /** A node not finished when visited on `w`, its inputs told, and an attempt on
      `w1` that completes. */
  lemma SubstitutedTold(o: Outside, g: DepGraph, start: Store, reading: Reading, w: World, visited: set<StorePath>,
                        node: StorePath,
                        w1: World, inputs: seq<Visit>, r: Progress)
      returns (vs: seq<Visit>)
    requires Bounded(o) && IsReading(reading, o, g, start) && reading.follows(w) && reading.follows(w1)
             && w.trace <= w1.trace
    requires node in g && node !in visited && !AllOutputsValid(w, g[node].drv)
    requires reading.tried(w, g[node].drv.OutputPaths(), w1, false)
    requires Chronicle(reading.truth, |w.trace|, visited + {node}, w1.trace, inputs)
    requires NotByBuild(w.trace, w1.trace)
    requires SubstituteClosure(o, w1, g[node].drv.OutputPaths()).outcome.ClosureComplete?
    requires var a := SubstituteClosure(o, w1, g[node].drv.OutputPaths());
             r == Progress(Ok(visited + {node} + Nodes(inputs)), AfterReport(o, a.world, Substituted, g[node].drv))
    ensures Told(o, g, start, reading, w, visited, r, vs)
  {
    var a := SubstituteClosure(o, w1, g[node].drv.OutputPaths());
    SubstituteTold(o, g, start, reading, w1, g[node].drv.OutputPaths());
    SubstitutedTruthful(o, g, start, reading, w, node, w1);
    ThenQuiet(reading.truth, |w.trace|, visited + {node}, w1.trace, inputs, a.world.trace);
    var v := Visit(node, |w.trace|, |a.world.trace|);
    vs := ReportTold(o, g, start, reading, w, visited, a.world, inputs, Substituted, v, r.result.value);
  }

  /** The same, and then a build. */
  lemma BuiltTold(o: Outside, g: DepGraph, start: Store, reading: Reading, w: World, visited: set<StorePath>,
                  node: StorePath,
                  w1: World, inputs: seq<Visit>) returns (vs: seq<Visit>)
    requires Bounded(o) && IsReading(reading, o, g, start) && reading.follows(w) && reading.follows(w1)
             && w.trace <= w1.trace
    requires node in g && node !in visited && !AllOutputsValid(w, g[node].drv)
    requires reading.tried(w, g[node].drv.OutputPaths(), w1, true)
    requires Chronicle(reading.truth, |w.trace|, visited + {node}, w1.trace, inputs)
    ensures var built := o.build(w1.trace, node);
            var w2 := AfterBuild(o, w1, node, g[node].drv);
            Told(o, g, start, reading, w, visited,
                 if built.Err? then Progress(Err(BuildFailed(built.error)), w2)
                 else Progress(Ok(visited + {node} + Nodes(inputs)), AfterReport(o, w2, Built, g[node].drv)), vs)
  {
    var w2 := AfterBuild(o, w1, node, g[node].drv);
    BuildFollows(o, g, start, reading, w1, node);
    ThenQuiet(reading.truth, |w.trace|, visited + {node}, w1.trace, inputs, w2.trace);
    if o.build(w1.trace, node).Err? {
      vs := inputs;
      WiderTold(reading.truth, |w.trace|, visited, visited + {node}, w2.trace, vs);
    } else {
      BuiltTruthful(o, g, start, reading, w, node, w1);
      var v := Visit(node, |w.trace|, |w2.trace|);
      vs := ReportTold(o, g, start, reading, w, visited, w2, inputs, Built, v, visited + {node} + Nodes(inputs));
    }
  }

  lemma NothingTold(o: Outside, g: DepGraph, start: Store, reading: Reading, w: World, visited: set<StorePath>)
    returns (vs: seq<Visit>)
    requires Bounded(o) && reading.follows(w)
    ensures Told(o, g, start, reading, w, visited, Progress(Ok(visited), w), vs)
  {
    vs := [];
    assert Nodes([]) == {};
  }

  lemma {:induction false} RealiseNodeTold(fallback: Fallback, o: Outside, g: DepGraph, start: Store, reading: Reading,
                                           w: World,
                                           visited: set<StorePath>, node: StorePath) returns (vs: seq<Visit>)
    requires Bounded(o) && IsReading(reading, o, g, start) && reading.follows(w)
    ensures Told(o, g, start, reading, w, visited, RealiseNode(fallback, o, g, w, visited, node), vs)
    decreases |g.Keys - visited|, 0, 2, 1
  {
    if node in visited || node !in g {
      vs := NothingTold(o, g, start, reading, w, visited);
    } else if AllOutputsValid(w, g[node].drv) {
      vs := ValidTold(o, g, start, reading, w, visited, node);
    } else {
      vs := UnfinishedTold(fallback, o, g, start, reading, w, visited, node);
    }
  }

  lemma ValidTold(o: Outside, g: DepGraph, start: Store, reading: Reading, w: World, visited: set<StorePath>,
                  node: StorePath)
    returns (vs: seq<Visit>)
    requires Bounded(o) && IsReading(reading, o, g, start) && reading.follows(w) && node in g && node !in visited
             && AllOutputsValid(w, g[node].drv)
    ensures Told(o, g, start, reading, w, visited,
                 Progress(Ok(visited + {node}), AfterReport(o, w, AlreadyValid, g[node].drv)), vs)
  {
    var v := Visit(node, |w.trace|, |w.trace|);
    ValidTruthful(o, g, start, reading, w, node);
    assert Nodes([]) == {};
    vs := ReportTold(o, g, start, reading, w, visited, w, [], AlreadyValid, v, visited + {node});
  }

  lemma {:induction false} UnfinishedTold(fallback: Fallback, o: Outside, g: DepGraph, start: Store, reading: Reading,
                                          w: World,
                                          visited: set<StorePath>, node: StorePath) returns (vs: seq<Visit>)
    requires Bounded(o) && IsReading(reading, o, g, start) && reading.follows(w)
    requires node in g && node !in visited && !AllOutputsValid(w, g[node].drv)
    ensures Told(o, g, start, reading, w, visited, RealiseNode(fallback, o, g, w, visited, node), vs)
    decreases |g.Keys - visited|, 0, 2, 0
  {
    var paths := g[node].drv.OutputPaths();
    var first := SubstituteClosure(o, w, paths);
    if first.outcome.ClosureComplete? {
      assert Nodes([]) == {} && visited + {node} + {} == visited + {node};
      assert RealiseNode(fallback, o, g, w, visited, node) ==
             Progress(Ok(visited + {node}), AfterReport(o, first.world, Substituted, g[node].drv));
      TriedNow(o, g, start, reading, w, paths);
      vs := SubstitutedTold(o, g, start, reading, w, visited, node, w, [],
                            RealiseNode(fallback, o, g, w, visited, node));
    } else {
      SubstituteTold(o, g, start, reading, w, paths);
      if SubstitutionStop(fallback, node, first.outcome).Some? {
        vs := [];
      } else {
        vs := BuildFromInputsTold(fallback, o, g, start, reading, w, visited, node, first);
      }
    }
  }

  lemma {:induction false} BuildFromInputsTold(fallback: Fallback, o: Outside, g: DepGraph, start: Store,
                                               reading: Reading,
                                               w: World,
                                               visited: set<StorePath>, node: StorePath, first: Attempt)
    returns (vs: seq<Visit>)
    requires Bounded(o) && IsReading(reading, o, g, start) && reading.follows(w) && reading.follows(first.world)
    requires OnlySubstitutes(w, first.world) && !first.outcome.ClosureComplete?
    requires node in g && first == SubstituteClosure(o, w, g[node].drv.OutputPaths())
    requires node !in visited && !AllOutputsValid(w, g[node].drv)
    requires SubstitutionStop(fallback, node, first.outcome).None?
    ensures Told(o, g, start, reading, w, visited, BuildFromInputs(fallback, o, g, visited, node, first), vs)
    decreases |g.Keys - visited|, 0, 1
  {
    assert g.Keys - (visited + {node}) == (g.Keys - visited) - {node};
    var seen := visited + {node};
    var inputs := RealiseAll(fallback, o, g, first.world, seen, DirectDeps(g, node));
    vs := RealiseAllTold(fallback, o, g, start, reading, first.world, seen, DirectDeps(g, node));
    InputsTold(o, g, start, reading, w, seen, first.world, inputs, vs);
    TriedOnce(o, g, start, reading, w, g[node].drv.OutputPaths(), inputs.world);
    if inputs.result.Err? {
      WiderTold(reading.truth, |w.trace|, visited, seen, inputs.world.trace, vs);
    } else {
      vs := FinishNodeTold(fallback, o, g, start, reading, w, visited, node, first.outcome, inputs, vs);
    }
  }

  /** What the inputs reported came after an attempt that reported nothing. */
  lemma InputsTold(o: Outside, g: DepGraph, start: Store, reading: Reading, w: World, seen: set<StorePath>, w1: World,
                   inputs: Progress,
                   vs: seq<Visit>)
    requires Bounded(o) && OnlySubstitutes(w, w1) && Told(o, g, start, reading, w1, seen, inputs, vs)
    ensures Chronicle(reading.truth, |w.trace|, seen, inputs.world.trace, vs) && w.trace <= inputs.world.trace
    ensures inputs.result.Ok? ==> NotByBuild(w.trace, inputs.world.trace)
  {
    assert forall i :: 0 <= i < |w1.trace| ==> inputs.world.trace[i] == w1.trace[i];
    QuietThen(reading.truth, |w.trace|, |w1.trace|, seen, inputs.world.trace, vs);
    if inputs.result.Ok? && inputs.world.trace == w1.trace && |w1.trace| > |w.trace| {
      assert !w1.trace[|w1.trace| - 1].Build?;
    }
  }

  lemma FinishNodeTold(fallback: Fallback, o: Outside, g: DepGraph, start: Store, reading: Reading, w: World,
                       visited: set<StorePath>,
                       node: StorePath, first: ClosureOutcome, inputs: Progress, told: seq<Visit>)
    returns (vs: seq<Visit>)
    requires Bounded(o) && IsReading(reading, o, g, start) && reading.follows(w) && reading.follows(inputs.world)
    requires node in g && node !in visited && !AllOutputsValid(w, g[node].drv)
    requires inputs.result.Ok? && inputs.result.value == visited + {node} + Nodes(told)
    requires Chronicle(reading.truth, |w.trace|, visited + {node}, inputs.world.trace, told)
    requires w.trace <= inputs.world.trace && reading.tried(w, g[node].drv.OutputPaths(), inputs.world, true)
    requires NotByBuild(w.trace, inputs.world.trace)
    requires !first.ClosureComplete? && SubstitutionStop(fallback, node, first).None?
    ensures Told(o, g, start, reading, w, visited, FinishNode(fallback, o, node, g[node].drv, first, inputs), vs)
  {
    var w1 := inputs.world;
    if first.ClosureIncomplete? {
      TriedLater(o, g, start, reading, w, g[node].drv.OutputPaths(), w1, w1, false);
      FinishesSubstituted(fallback, o, node, g[node].drv, inputs);
      var r := FinishNode(fallback, o, node, g[node].drv, ClosureIncomplete, inputs);
      if SubstituteClosure(o, w1, g[node].drv.OutputPaths()).outcome.ClosureComplete? {
        vs := SubstitutedTold(o, g, start, reading, w, visited, node, w1, told, r);
      } else {
        vs := RetryFailedTold(fallback, o, g, start, reading, w, visited, node, inputs, told, r);
      }
    } else {
      vs := BuiltTold(o, g, start, reading, w, visited, node, w1, told);
    }
  }

  lemma FinishesSubstituted(fallback: Fallback, o: Outside, node: StorePath, drv: Derivation, inputs: Progress)
    requires Bounded(o) && inputs.result.Ok?
    ensures var a := SubstituteClosure(o, inputs.world, drv.OutputPaths());
            a.outcome.ClosureComplete? ==>
              FinishNode(fallback, o, node, drv, ClosureIncomplete, inputs) ==
              Progress(inputs.result, AfterReport(o, a.world, Substituted, drv))
  {
  }

  lemma RetryFailedTold(fallback: Fallback, o: Outside, g: DepGraph, start: Store, reading: Reading, w: World,
                        visited: set<StorePath>,
                        node: StorePath, inputs: Progress, told: seq<Visit>, r: Progress) returns (vs: seq<Visit>)
    requires Bounded(o) && IsReading(reading, o, g, start) && reading.follows(w) && reading.follows(inputs.world)
    requires node in g && node !in visited && !AllOutputsValid(w, g[node].drv)
    requires inputs.result.Ok? && inputs.result.value == visited + {node} + Nodes(told)
    requires Chronicle(reading.truth, |w.trace|, visited + {node}, inputs.world.trace, told)
    requires w.trace <= inputs.world.trace && reading.tried(w, g[node].drv.OutputPaths(), inputs.world, true)
    requires !SubstituteClosure(o, inputs.world, g[node].drv.OutputPaths()).outcome.ClosureComplete?
    requires r == FinishNode(fallback, o, node, g[node].drv, ClosureIncomplete, inputs)
    ensures Told(o, g, start, reading, w, visited, r, vs)
  {
    var w1, paths := inputs.world, g[node].drv.OutputPaths();
    var retried := SubstituteClosure(o, w1, paths);
    SubstituteTold(o, g, start, reading, w1, paths);
    ThenQuiet(reading.truth, |w.trace|, visited + {node}, w1.trace, told, retried.world.trace);
    TriedLater(o, g, start, reading, w, paths, w1, retried.world, true);
    if SubstitutionStop(fallback, node, retried.outcome).Some? {
      vs := told;
      WiderTold(reading.truth, |w.trace|, visited, visited + {node}, retried.world.trace, vs);
    } else {
      vs := BuiltTold(o, g, start, reading, w, visited, node, retried.world, told);
    }
  }

  lemma {:induction false} RealiseAllTold(fallback: Fallback, o: Outside, g: DepGraph, start: Store, reading: Reading,
                                          w: World,
                                          visited: set<StorePath>, nodes: seq<StorePath>) returns (vs: seq<Visit>)
    requires Bounded(o) && IsReading(reading, o, g, start) && reading.follows(w)
    ensures Told(o, g, start, reading, w, visited, RealiseAll(fallback, o, g, w, visited, nodes), vs)
    decreases |g.Keys - visited|, 1, |nodes|, 0
  {
    if nodes == [] {
      vs := NothingTold(o, g, start, reading, w, visited);
    } else {
      vs := RealiseNodeTold(fallback, o, g, start, reading, w, visited, nodes[0]);
      var one := RealiseNode(fallback, o, g, w, visited, nodes[0]);
      if one.result.Ok? {
        SubsetSize(g.Keys - one.result.value, g.Keys - visited);
        vs := RestOfAllTold(fallback, o, g, start, reading, w, visited, nodes, one, vs);
        assert RealiseAll(fallback, o, g, w, visited, nodes) ==
               RealiseAll(fallback, o, g, one.world, one.result.value, nodes[1..]);
      }
    }
  }

  lemma {:induction false} RestOfAllTold(fallback: Fallback, o: Outside, g: DepGraph, start: Store, reading: Reading,
                                         w: World,
                                         visited: set<StorePath>, nodes: seq<StorePath>, one: Progress,
                                         told: seq<Visit>) returns (vs: seq<Visit>)
    requires Bounded(o) && IsReading(reading, o, g, start) && |nodes| > 0 && one.result.Ok?
             && Told(o, g, start, reading, w, visited, one, told)
    requires |g.Keys - one.result.value| <= |g.Keys - visited|
    ensures Told(o, g, start, reading, w, visited, RealiseAll(fallback, o, g, one.world, one.result.value, nodes[1..]),
            vs)
    decreases |g.Keys - visited|, 1, |nodes| - 1, 1
  {
    var later := RealiseAllTold(fallback, o, g, start, reading, one.world, one.result.value, nodes[1..]);
    var r := RealiseAll(fallback, o, g, one.world, one.result.value, nodes[1..]);
    ToldTogether(o, g, start, reading, w, visited, one, told, r, later);
    vs := told + later;
  }

  lemma ToldTogether(o: Outside, g: DepGraph, start: Store, reading: Reading, w: World, visited: set<StorePath>,
                     one: Progress,
                     told: seq<Visit>, r: Progress, later: seq<Visit>)
    requires Bounded(o) && one.result.Ok? && Told(o, g, start, reading, w, visited, one, told)
    requires Told(o, g, start, reading, one.world, one.result.value, r, later)
    ensures Told(o, g, start, reading, w, visited, r, told + later)
  {
    Together(reading.truth, |w.trace|, visited, one.world.trace, told, one.result.value, r.world.trace, later);
    if r.result.Ok? {
      ReportsLastTogether(w.trace, one.world.trace, r.world.trace);
      NodesTogether(told, later);
    }
  }

  ghost predicate AllTruthful(o: Outside, g: DepGraph, start: Store, t: Trace, vs: seq<Visit>)
    requires Bounded(o)
  {
    forall v :: v in vs ==> Truthful(o, g, start, t, v)
  }

  /** Every report of every run, failed ones included, is of another visited
      derivation of the graph and says how that derivation came to be realised; a
      success has reported each visited one, the root among them. */
  lemma ReportsAreTrue(fallback: Fallback, o: Outside, g: DepGraph, store: Store, root: StorePath)
    returns (vs: seq<Visit>)
    requires Bounded(o)
    ensures var r := Realise(fallback, o, g, store, root);
            var t := r.world.trace;
            && AllTruthful(o, g, store, t, vs) && InTurn(vs)
            && (forall i :: 0 <= i < |t| && t[i].Report? ==> ReportedBy(vs, i))
            && (r.result.Ok? ==> Nodes(vs) == r.result.value && (root in g ==> root in Nodes(vs)))
  {
    var w := World(store, []);
    var t := Realise(fallback, o, g, store, root).world.trace;
    var reading := Reading((t: Trace, v: Visit) => Truthful(o, g, store, t, v),
                           (w: World) => w.store == StoreAfter(o, g, store, w.trace),
                           (w: World, paths: seq<StorePath>, w1: World, failed: bool) =>
                             TriedBefore(o, w, paths, w1, failed));
    vs := RealiseNodeTold(fallback, o, g, store, reading, w, {}, root);
    Chronicled(reading.truth, {}, t, vs);
    forall v | v in vs
      ensures Truthful(o, g, store, t, v)
    {
      assert Reported(reading.truth, t, v);
      TruthfulStays(o, g, store, t[..v.at + 1], t, v);
    }
    if root in g {
      RootIsVisited(fallback, o, g, w, {}, root);
    }
  }

  lemma RootIsVisited(fallback: Fallback, o: Outside, g: DepGraph, w: World, visited: set<StorePath>, node: StorePath)
    requires Bounded(o) && node in g
    ensures var r := RealiseNode(fallback, o, g, w, visited, node);
            r.result.Ok? ==> node in r.result.value
  {
  }
}
