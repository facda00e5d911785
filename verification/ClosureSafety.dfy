/** What every substitution attempt keeps, whatever the caches answer. */
module ClosureSafety {
  import opened Basics
  import Sorting
  import opened Digraph
  import opened Realisation

  // ---- The store only grows ---------------------------------------------

  ghost predicate Grows(w: World, w': World) {
    && w.trace <= w'.trace
    && forall p :: p in w.store ==> p in w'.store && w'.store[p] == w.store[p]
  }

  lemma ElapseGrows(o: Outside, w: World, e: Event, registered: Store)
    ensures Grows(w, Elapse(o, w, e, registered))
  {
  }

  lemma GrowsTransitive(a: World, b: World, c: World)
    requires Grows(a, b) && Grows(b, c)
    ensures Grows(a, c)
  {
  }

  lemma {:induction false} AskAllGrows(o: Outside, w: World, paths: seq<StorePath>)
    ensures Grows(w, AskAll(o, w, paths).world)
    decreases |paths|
  {
    if paths != [] {
      var w1 := AfterQuery(o, w, paths[0]);
      ElapseGrows(o, w, Query(paths[0]), map[]);
      AskAllGrows(o, w1, paths[1..]);
      GrowsTransitive(w, w1, AskAll(o, w1, paths[1..]).world);
    }
  }

  lemma {:induction false} ClosureOfGrows(o: Outside, w: World, visited: set<StorePath>, paths: seq<StorePath>)
    requires Bounded(o)
    ensures Grows(w, ClosureOf(o, w, visited, paths).world)
    decreases |o.universe - visited|, 1, 0
  {
    var missing := Missing(w, paths);
    var asked := AskAll(o, w, missing);
    AskAllGrows(o, w, missing);
    if missing != [] && asked.answer.Ok? && asked.answer.value.Some? {
      AskedAreBounded(o, w, missing);
      ReferencesFirstGrows(o, asked.world, visited, References(asked, missing));
      var held := ReferencesFirst(o, asked.world, visited, References(asked, missing)).world;
      GrowsTransitive(w, asked.world, held);
      var outcome := FetchAnswer(o, held, missing);
      ElapseGrows(o, held, Fetch(missing, outcome, held.store), FetchRows(o, missing, outcome));
      GrowsTransitive(w, held, AfterFetch(o, held, missing));
    }
  }

  /** The references a closure fetches first. */
  function References(asked: Asked, missing: seq<StorePath>): seq<StorePath>
    requires asked.answer.Ok? && asked.answer.value.Some?
  {
    Sorting.AscendingPaths(asked.answer.value.value - Elements(missing))
  }

  lemma {:induction false} ReferencesFirstGrows(o: Outside, w: World, visited: set<StorePath>,
                                                references: seq<StorePath>)
    requires Bounded(o) && Elements(references) <= o.universe
    ensures Grows(w, ReferencesFirst(o, w, visited, references).world)
    decreases |o.universe - visited|, 0, |references|
  {
    if references != [] {
      var r, rest := references[0], references[1..];
      if r in visited {
        ReferencesFirstGrows(o, w, visited, rest);
      } else {
        Shrinks(o, visited, r);
        ClosureOfGrows(o, w, visited + {r}, [r]);
        var a := ClosureOf(o, w, visited + {r}, [r]);
        SubsetSize(o.universe - a.visited, o.universe - (visited + {r}));
        if a.outcome.ClosureComplete? {
          ReferencesFirstGrows(o, a.world, a.visited, rest);
          GrowsTransitive(w, a.world, ReferencesFirst(o, a.world, a.visited, rest).world);
        }
      }
    }
  }

  /** The measure of the walk: a path not yet visited leaves fewer of them. */
  lemma Shrinks(o: Outside, visited: set<StorePath>, r: StorePath)
    requires r in o.universe && r !in visited
    ensures |o.universe - (visited + {r})| < |o.universe - visited|
  {
    assert o.universe - (visited + {r}) == (o.universe - visited) - {r};
  }

  // ---- How often a path is asked about and fetched ----------------------

  /** How often a trace queried a path. */
  ghost function Queries(t: Trace, p: StorePath): nat {
    if t == [] then 0
    else Queries(t[..|t| - 1], p) + if t[|t| - 1] == Query(p) then 1 else 0
  }

  /** How often a list holds a path. */
  ghost function Times(s: seq<StorePath>, p: StorePath): nat {
    if s == [] then 0 else One(s[0] == p) + Times(s[1..], p)
  }

  lemma {:induction false} TimesIsCount(s: seq<StorePath>, p: StorePath)
    ensures Times(s, p) == multiset(s)[p]
  {
    if s != [] {
      CountsFirst(s, p);
      TimesIsCount(s[1..], p);
    }
  }

  /** How often a trace asked for a path to be fetched. */
  ghost function Fetches(t: Trace, p: StorePath): nat {
    if t == [] then 0
    else Fetches(t[..|t| - 1], p) + if t[|t| - 1].Fetch? then Times(t[|t| - 1].batch, p) else 0
  }

  lemma CountsStep(o: Outside, w: World, e: Event, registered: Store, p: StorePath)
    ensures Queries(Elapse(o, w, e, registered).trace, p) == Queries(w.trace, p) + One(e == Query(p))
    ensures Fetches(Elapse(o, w, e, registered).trace, p) ==
            Fetches(w.trace, p) + if e.Fetch? then Times(e.batch, p) else 0
  {
    assert (w.trace + [e])[..|w.trace|] == w.trace;
  }

  lemma {:induction false} MissingCounts(w: World, paths: seq<StorePath>, p: StorePath)
    ensures Times(Missing(w, paths), p) <= Times(paths, p)
  {
    if paths != [] {
      MissingCounts(w, paths[1..], p);
      var first, rest := paths[0], Missing(w, paths[1..]);
      if first in w.store {
        assert Missing(w, paths) == [] + rest == rest;
      } else {
        assert Missing(w, paths) == [first] + rest && ([first] + rest)[1..] == rest;
      }
    }
  }

  lemma {:induction false} AskAllCounts(o: Outside, w: World, paths: seq<StorePath>, p: StorePath)
    ensures Queries(AskAll(o, w, paths).world.trace, p) <= Queries(w.trace, p) + Times(paths, p)
    ensures Fetches(AskAll(o, w, paths).world.trace, p) == Fetches(w.trace, p)
    decreases |paths|
  {
    if paths != [] {
      CountsStep(o, w, Query(paths[0]), map[], p);
      AskAllCounts(o, AfterQuery(o, w, paths[0]), paths[1..], p);
    }
  }

  /** What asking about and fetching the missing paths adds, in turn. */
  lemma AskedCounts(o: Outside, w: World, paths: seq<StorePath>, p: StorePath, listed: nat)
    requires Times(paths, p) <= listed
    ensures Often(w, AskAll(o, w, Missing(w, paths)).world, p, listed, 0)
  {
    MissingCounts(w, paths, p);
    AskAllCounts(o, w, Missing(w, paths), p);
  }

  lemma FetchedCounts(o: Outside, w: World, before: World, paths: seq<StorePath>, p: StorePath, listed: nat)
    requires Times(paths, p) <= listed
    ensures Often(w, AfterFetch(o, w, Missing(before, paths)), p, 0, listed)
  {
    MissingCounts(before, paths, p);
    FetchCounts(o, w, Missing(before, paths), p);
  }

  /** A path was queried and fetched at most so often between two worlds. */
  ghost predicate Often(w: World, w': World, p: StorePath, queried: nat, fetched: nat) {
    && Queries(w'.trace, p) <= Queries(w.trace, p) + queried
    && Fetches(w'.trace, p) <= Fetches(w.trace, p) + fetched
  }

  lemma OftenTogether(a: World, b: World, c: World, p: StorePath, q1: nat, f1: nat, q2: nat, f2: nat)
    requires Often(a, b, p, q1, f1) && Often(b, c, p, q2, f2)
    ensures Often(a, c, p, q1 + q2, f1 + f2)
  {
  }

  /** One attempt asks about a path, and fetches it, as often as it is listed,
      or once as a reference visited on the way. */
  lemma {:induction false} ClosureOfCounts(o: Outside, w: World, visited: set<StorePath>, paths: seq<StorePath>,
                                           p: StorePath, listed: nat)
    requires Bounded(o) && Times(paths, p) <= listed
    ensures var a := ClosureOf(o, w, visited, paths);
            var often := listed + One(p in a.visited - visited);
            Often(w, a.world, p, often, often)
    decreases |o.universe - visited|, 1, 0
  {
    var missing := Missing(w, paths);
    var asked := AskAll(o, w, missing);
    AskedCounts(o, w, paths, p, listed);
    if missing != [] && asked.answer.Ok? && asked.answer.value.Some? {
      AskedAreBounded(o, w, missing);
      ReferencesFirstCounts(o, asked.world, visited, References(asked, missing), p);
      HeldCounts(o, w, visited, paths, p, listed);
    }
  }

  lemma HeldCounts(o: Outside, w: World, visited: set<StorePath>, paths: seq<StorePath>, p: StorePath, listed: nat)
    requires Bounded(o) && Times(paths, p) <= listed
    requires var missing := Missing(w, paths);
             var asked := AskAll(o, w, missing);
             && missing != [] && asked.answer.Ok? && asked.answer.value.Some?
             && Elements(References(asked, missing)) <= o.universe
             && Often(w, asked.world, p, listed, 0)
             && var held := ReferencesFirst(o, asked.world, visited, References(asked, missing));
                var once := One(p in held.visited - visited);
                Often(asked.world, held.world, p, once, once)
    ensures var a := ClosureOf(o, w, visited, paths);
            var often := listed + One(p in a.visited - visited);
            Often(w, a.world, p, often, often)
  {
    var missing := Missing(w, paths);
    var asked := AskAll(o, w, missing);
    var held := ReferencesFirst(o, asked.world, visited, References(asked, missing));
    var once := One(p in held.visited - visited);
    OftenTogether(w, asked.world, held.world, p, listed, 0, once, once);
    if held.outcome.ClosureComplete? {
      FetchedCounts(o, held.world, w, paths, p, listed);
      OftenTogether(w, held.world, AfterFetch(o, held.world, missing), p, listed + once, once, 0, listed);
    }
  }

  lemma FetchCounts(o: Outside, w: World, batch: seq<StorePath>, p: StorePath)
    ensures Queries(AfterFetch(o, w, batch).trace, p) == Queries(w.trace, p)
    ensures Fetches(AfterFetch(o, w, batch).trace, p) == Fetches(w.trace, p) + Times(batch, p)
  {
    var outcome := FetchAnswer(o, w, batch);
    CountsStep(o, w, Fetch(batch, outcome, w.store), FetchRows(o, batch, outcome), p);
  }

  lemma {:induction false} ReferencesFirstCounts(o: Outside, w: World, visited: set<StorePath>,
                                                 references: seq<StorePath>, p: StorePath)
    requires Bounded(o) && Elements(references) <= o.universe
    ensures var a := ReferencesFirst(o, w, visited, references);
            var once := One(p in a.visited - visited);
            Often(w, a.world, p, once, once)
    decreases |o.universe - visited|, 0, |references|
  {
    if references != [] {
      var r, rest := references[0], references[1..];
      if r in visited {
        ReferencesFirstCounts(o, w, visited, rest, p);
      } else {
        Shrinks(o, visited, r);
        ClosureOfCounts(o, w, visited + {r}, [r], p, One(p == r));
        var a := ClosureOf(o, w, visited + {r}, [r]);
        SubsetSize(o.universe - a.visited, o.universe - (visited + {r}));
        if a.outcome.ClosureComplete? {
          ReferencesFirstCounts(o, a.world, a.visited, rest, p);
        }
      }
    }
  }

  /** What one attempt adds to how often a path was queried and fetched. */
  ghost predicate AsksAtMost(o: Outside, w: World, paths: seq<StorePath>, p: StorePath, often: nat)
    requires Bounded(o)
  {
    Often(w, SubstituteClosure(o, w, paths).world, p, often, often)
  }

  /** Whatever the caches declare, cycles included, one attempt queries and
      fetches each path at most once, or as often as it is listed. */
  lemma AttemptAsks(o: Outside, w: World, paths: seq<StorePath>, p: StorePath)
    requires Bounded(o)
    ensures AsksAtMost(o, w, paths, p, if p in paths then multiset(paths)[p] else 1)
  {
    TimesIsCount(paths, p);
    ClosureOfCounts(o, w, Elements(paths), paths, p, Times(paths, p));
  }

  /** Caches that offer nothing. */
  ghost predicate Silent(o: Outside) {
    forall h, p :: o.offer(h, p) == NotOffered
  }

  lemma {:induction false} SilentAnswers(o: Outside, w: World, paths: seq<StorePath>)
    requires Silent(o)
    ensures var answer := AskAll(o, w, paths).answer; answer.Ok? && (answer.value.None? <==> paths != [])
    decreases |paths|
  {
    if paths != [] {
      SilentAnswers(o, AfterQuery(o, w, paths[0]), paths[1..]);
    }
  }

  lemma {:induction false} SilentCounts(o: Outside, w: World, paths: seq<StorePath>, p: StorePath)
    requires Silent(o)
    ensures Queries(AskAll(o, w, paths).world.trace, p) == Queries(w.trace, p) + Times(paths, p)
    decreases |paths|
  {
    if paths != [] {
      var w1 := AfterQuery(o, w, paths[0]);
      CountsStep(o, w, Query(paths[0]), map[], p);
      SilentCounts(o, w1, paths[1..], p);
      assert AskAll(o, w, paths).world == AskAll(o, w1, paths[1..]).world;
    }
  }

  lemma {:induction false} NoneMissing(w: World, paths: seq<StorePath>)
    requires w.store == map[]
    ensures Missing(w, paths) == paths
  {
    if paths != [] {
      NoneMissing(w, paths[1..]);
    }
  }

  /** A path is asked about as often as it is listed, when nothing is valid or offered. */
  lemma SilentAsks(o: Outside, paths: seq<StorePath>, p: StorePath)
    requires Silent(o)
    ensures Queries(SubstituteClosure(o, World(map[], []), paths).world.trace, p) == multiset(paths)[p]
  {
    TimesIsCount(paths, p);
    NoneMissing(World(map[], []), paths);
    SilentAnswers(o, World(map[], []), paths);
    SilentCounts(o, World(map[], []), paths, p);
  }

  function Nothing(): (o: Outside)
    ensures Silent(o)
  {
    Outside({}, p => {}, (h, p) => NotOffered, (h, batch) => FetchMissed, (h, node) => Err(""), (h, p) => {},
      h => map[])
  }

  /** A derivation whose two outputs are at one path has it asked about twice. */
  lemma RepeatAsksTwice()
    ensures Queries(SubstituteClosure(Nothing(), World(map[], []), [5, 5]).world.trace, 5) == 2
  {
    SilentAsks(Nothing(), [5, 5], 5);
  }

  ghost predicate AlwaysAsksOnce(paths: seq<StorePath>) {
    forall o: Outside, w: World, p: StorePath :: Bounded(o) ==> AsksAtMost(o, w, paths, p, 1)
  }

  /** Each path is asked about and fetched at most once, whatever the caches and
      the store hold, exactly when the list repeats none. */
  lemma AsksOnceExactly(paths: seq<StorePath>)
    ensures AlwaysAsksOnce(paths) <==> NoDuplicates(paths)
  {
    CountsOnceExactly(paths);
    forall o: Outside, w: World, p: StorePath | Bounded(o) && NoDuplicates(paths)
      ensures AsksAtMost(o, w, paths, p, 1)
    {
      AttemptAsks(o, w, paths, p);
    }
    forall p | multiset(paths)[p] > 1
      ensures !AlwaysAsksOnce(paths)
    {
      SilentAsks(Nothing(), paths, p);
      assert !AsksAtMost(Nothing(), World(map[], []), paths, p, 1);
    }
  }

  // ---- The store stays closed under references --------------------------

  ghost predicate Closed(store: Store) {
    forall p :: p in store ==> store[p] <= store.Keys
  }

  /** Other processes keep the store closed. */
  ghost predicate OthersClosed(o: Outside) {
    forall h :: Closed(o.meanwhile(h))
  }

  ghost predicate ClosedBefore(e: Event) {
    match e
    case Fetch(_, _, before) => Closed(before)
    case Build(_, _, before) => Closed(before)
    case _ => true
  }

  /** The store is closed, and was when each fetch and build was issued. */
  ghost predicate AlwaysClosed(w: World) {
    Closed(w.store) && forall i :: 0 <= i < |w.trace| ==> ClosedBefore(w.trace[i])
  }

  /** An effect that registers rows with valid references keeps the store closed. */
  lemma ElapseKeepsClosed(o: Outside, w: World, e: Event, registered: Store)
    requires OthersClosed(o) && AlwaysClosed(w) && ClosedBefore(e)
    requires var valid := w.store.Keys + o.meanwhile(w.trace).Keys;
             forall p :: p in registered && p !in valid ==> registered[p] <= valid + registered.Keys
    ensures AlwaysClosed(Elapse(o, w, e, registered))
  {
    var w' := Elapse(o, w, e, registered);
    var others := o.meanwhile(w.trace);
    assert Closed(others);
    assert w'.store.Keys == w.store.Keys + others.Keys + registered.Keys;
    forall p | p in w'.store
      ensures w'.store[p] <= w'.store.Keys
    {
      assert p in w.store || p in others || p in registered;
    }
  }

  lemma {:induction false} AskAllKeepsClosed(o: Outside, w: World, paths: seq<StorePath>)
    requires OthersClosed(o) && AlwaysClosed(w)
    ensures AlwaysClosed(AskAll(o, w, paths).world)
    decreases |paths|
  {
    if paths != [] {
      ElapseKeepsClosed(o, w, Query(paths[0]), map[]);
      AskAllKeepsClosed(o, AfterQuery(o, w, paths[0]), paths[1..]);
    }
  }

  lemma FetchKeepsClosed(o: Outside, w: World, batch: seq<StorePath>)
    requires OthersClosed(o) && AlwaysClosed(w)
    ensures AlwaysClosed(AfterFetch(o, w, batch))
  {
    var outcome := FetchAnswer(o, w, batch);
    var rows := FetchRows(o, batch, outcome);
    assert outcome.Fetched? ==> rows.Keys == Elements(batch);
    ElapseKeepsClosed(o, w, Fetch(batch, outcome, w.store), rows);
  }

  lemma {:induction false} ClosureOfKeepsClosed(o: Outside, w: World, visited: set<StorePath>, paths: seq<StorePath>)
    requires Bounded(o) && OthersClosed(o) && AlwaysClosed(w)
    ensures AlwaysClosed(ClosureOf(o, w, visited, paths).world)
    decreases |o.universe - visited|, 1, 0
  {
    var missing := Missing(w, paths);
    var asked := AskAll(o, w, missing);
    AskAllKeepsClosed(o, w, missing);
    if missing != [] && asked.answer.Ok? && asked.answer.value.Some? {
      AskedAreBounded(o, w, missing);
      ReferencesFirstKeepsClosed(o, asked.world, visited, References(asked, missing));
      var held := ReferencesFirst(o, asked.world, visited, References(asked, missing));
      if held.outcome.ClosureComplete? {
        FetchKeepsClosed(o, held.world, missing);
      }
    }
  }

  lemma {:induction false} ReferencesFirstKeepsClosed(o: Outside, w: World, visited: set<StorePath>,
                                                      references: seq<StorePath>)
    requires Bounded(o) && OthersClosed(o) && AlwaysClosed(w) && Elements(references) <= o.universe
    ensures AlwaysClosed(ReferencesFirst(o, w, visited, references).world)
    decreases |o.universe - visited|, 0, |references|
  {
    if references != [] {
      var r, rest := references[0], references[1..];
      if r in visited {
        ReferencesFirstKeepsClosed(o, w, visited, rest);
      } else {
        Shrinks(o, visited, r);
        ClosureOfKeepsClosed(o, w, visited + {r}, [r]);
        var a := ClosureOf(o, w, visited + {r}, [r]);
        SubsetSize(o.universe - a.visited, o.universe - (visited + {r}));
        if a.outcome.ClosureComplete? {
          ReferencesFirstKeepsClosed(o, a.world, a.visited, rest);
        }
      }
    }
  }

  /** A completed substitution leaves its paths valid, cycles or not. */
  lemma CompleteIsValid(o: Outside, w: World, visited: set<StorePath>, paths: seq<StorePath>)
    requires Bounded(o)
    ensures var a := ClosureOf(o, w, visited, paths);
            a.outcome.ClosureComplete? ==> Elements(paths) <= a.world.store.Keys
  {
    var missing := Missing(w, paths);
    var asked := AskAll(o, w, missing);
    AskAllGrows(o, w, missing);
    if missing != [] && asked.answer.Ok? && asked.answer.value.Some? {
      AskedAreBounded(o, w, missing);
      ReferencesFirstGrows(o, asked.world, visited, References(asked, missing));
      assert forall p :: p in paths ==> p in missing || p in w.store;
    }
  }

  /** Whatever the caches offer and declare, cycles included, substituting a
      batch keeps the store closed at every step, however it ends, and completes
      only with the whole batch valid. */
  lemma SubstituteKeepsClosed(o: Outside, w: World, paths: seq<StorePath>)
    requires Bounded(o) && OthersClosed(o) && AlwaysClosed(w)
    ensures var a := SubstituteClosure(o, w, paths);
            && AlwaysClosed(a.world)
            && (a.outcome.ClosureComplete? ==> Elements(paths) <= a.world.store.Keys)
  {
    ClosureOfKeepsClosed(o, w, Elements(paths), paths);
    CompleteIsValid(o, w, Elements(paths), paths);
  }
}
