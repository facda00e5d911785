/** A substitution that meets a cycle of declared references fetches something
    too early, and fails (src/Nix/Realise.hs). */
module ReferenceCycles {
  import opened Basics
  import opened Digraph
  import opened Realisation
  import opened ClosureSafety
  import opened FetchOrder
  import Sorting

  // ---- A completed substitution met no cycle ----------------------------

  /** No other process registers anything. */
  ghost predicate Alone(o: Outside) {
    forall h :: o.meanwhile(h) == map[]
  }

  /** The paths fetched, in order. */
  ghost function Arrived(t: Trace): seq<StorePath> {
    if t == [] then []
    else
      var e := t[|t| - 1];
      Arrived(t[..|t| - 1]) + if e.Fetch? && e.outcome.Fetched? then e.batch else []
  }

  lemma ArrivedStep(t: Trace, e: Event)
    ensures Arrived(t + [e]) == Arrived(t) + if e.Fetch? && e.outcome.Fetched? then e.batch else []
  {
    assert (t + [e])[..|t|] == t;
  }

  /** What is valid is what was fetched, none of it in the batch, and each path
      was fetched after what it references. */
  ghost predicate Stocked(o: Outside, batch: set<StorePath>, w: World) {
    && Elements(Arrived(w.trace)) == w.store.Keys
    && w.store.Keys !! batch
    && SuccessorsFirst(Contracted(o, batch), Arrived(w.trace))
  }

  lemma {:induction false} AskAllStocked(o: Outside, batch: set<StorePath>, w: World, paths: seq<StorePath>)
    requires Alone(o) && Stocked(o, batch, w)
    ensures Stocked(o, batch, AskAll(o, w, paths).world)
    decreases |paths|
  {
    if paths != [] {
      var w1 := AfterQuery(o, w, paths[0]);
      StoreAlone(o, w, Query(paths[0]), map[]);
      ArrivedStep(w.trace, Query(paths[0]));
      StockedAs(o, batch, w, w1);
      AskAllStocked(o, batch, w1, paths[1..]);
    }
  }

  lemma StoreAlone(o: Outside, w: World, e: Event, registered: Store)
    requires Alone(o)
    ensures Elapse(o, w, e, registered).store.Keys == registered.Keys + w.store.Keys
  {
  }

  lemma StockedAs(o: Outside, batch: set<StorePath>, w: World, w': World)
    requires Stocked(o, batch, w) && Arrived(w'.trace) == Arrived(w.trace) && w'.store.Keys == w.store.Keys
    ensures Stocked(o, batch, w')
  {
  }

  lemma OrderGrows(g: Graph, order: seq<StorePath>, last: seq<StorePath>)
    requires SuccessorsFirst(g, order)
    requires forall p, q :: p in last && Edge(g, p, q) ==> q in order
    ensures SuccessorsFirst(g, order + last)
  {
    forall i, q | 0 <= i < |order + last| && Edge(g, (order + last)[i], q)
      ensures q in (order + last)[..i]
    {
      if i < |order| {
        assert (order + last)[..i] == order[..i];
      } else {
        assert (order + last)[i] in last;
        assert (order + last)[..i] == order + last[..i - |order|];
      }
    }
  }

  /** What a fetch of one path adds to the store and to what arrived. */
  lemma FetchAdds(o: Outside, w: World, p: StorePath)
    requires Alone(o)
    ensures var w', arrived := AfterFetch(o, w, [p]), FetchAnswer(o, w, [p]).Fetched?;
            && w'.store.Keys == (if arrived then {p} else {}) + w.store.Keys
            && Arrived(w'.trace) == Arrived(w.trace) + (if arrived then [p] else [])
  {
    var outcome := FetchAnswer(o, w, [p]);
    StoreAlone(o, w, Fetch([p], outcome, w.store), FetchRows(o, [p], outcome));
    ArrivedStep(w.trace, Fetch([p], outcome, w.store));
    assert outcome.Fetched? ==> FetchRows(o, [p], outcome).Keys == {p};
  }

  /** Registering a path outside the batch: its references were valid. */
  lemma FetchStocked(o: Outside, batch: set<StorePath>, w: World, p: StorePath)
    requires Alone(o) && Stocked(o, batch, w) && p !in batch
    ensures Stocked(o, batch, AfterFetch(o, w, [p]))
  {
    FetchAdds(o, w, p);
    if FetchAnswer(o, w, [p]).Fetched? {
      RegisteredStocked(o, batch, w, p, AfterFetch(o, w, [p]));
    } else {
      StockedAs(o, batch, w, AfterFetch(o, w, [p]));
    }
  }

  lemma RegisteredStocked(o: Outside, batch: set<StorePath>, w: World, p: StorePath, w': World)
    requires Alone(o) && Stocked(o, batch, w) && p !in batch && Registers(o, w, [p])
    requires Arrived(w'.trace) == Arrived(w.trace) + [p] && w'.store.Keys == {p} + w.store.Keys
    ensures Stocked(o, batch, w')
  {
    var g, order := Contracted(o, batch), Arrived(w.trace);
    assert Elements(order + [p]) == Elements(order) + {p};
    forall q | Edge(g, p, q)
      ensures q in order
    {
      SuccessorsRegistered(o, batch, w, p, q);
    }
    OrderGrows(g, order, [p]);
  }

  lemma SuccessorsRegistered(o: Outside, batch: set<StorePath>, w: World, p: StorePath, q: StorePath)
    requires Alone(o) && Stocked(o, batch, w) && p !in batch && Registers(o, w, [p])
    requires Edge(Contracted(o, batch), p, q)
    ensures q in Arrived(w.trace)
  {
    var order := Arrived(w.trace);
    if p in w.store {
      assert p in Elements(order);
      var i :| 0 <= i < |order| && order[i] == p;
      assert q in order[..i];
    } else {
      assert Elements([p]) == {p} && p in [p];
      assert o.declared(p) <= w.store.Keys + {p};
      assert o.declared(p) * batch == {};
      assert q in Elements(order);
    }
  }

  lemma MissingOne(w: World, p: StorePath)
    ensures Missing(w, [p]) == if p in w.store then [] else [p]
  {
    assert Missing(w, [p][1..]) == [];
  }

  lemma {:induction false} ClosureOfStocked(o: Outside, batch: set<StorePath>, w: World, visited: set<StorePath>,
                                            p: StorePath)
    requires Bounded(o) && Alone(o) && Stocked(o, batch, w) && batch <= visited && p !in batch
    ensures Stocked(o, batch, ClosureOf(o, w, visited, [p]).world)
    decreases |o.universe - visited|, 1, 0
  {
    MissingOne(w, p);
    if p !in w.store {
      var asked := AskAll(o, w, [p]);
      AskAllStocked(o, batch, w, [p]);
      AskedAreBounded(o, w, [p]);
      if asked.answer.Ok? && asked.answer.value.Some? {
        ReferencesFirstStocked(o, batch, asked.world, visited, References(asked, [p]));
        var held := ReferencesFirst(o, asked.world, visited, References(asked, [p]));
        FetchStocked(o, batch, held.world, p);
      }
    }
  }

  lemma {:induction false} ReferencesFirstStocked(o: Outside, batch: set<StorePath>, w: World, visited: set<StorePath>,
                                                  references: seq<StorePath>)
    requires Bounded(o) && Alone(o) && Stocked(o, batch, w) && batch <= visited
    requires Elements(references) <= o.universe
    ensures Stocked(o, batch, ReferencesFirst(o, w, visited, references).world)
    decreases |o.universe - visited|, 0, |references|
  {
    if references != [] {
      var r, rest := references[0], references[1..];
      if r in visited {
        ReferencesFirstStocked(o, batch, w, visited, rest);
      } else {
        Shrinks(o, visited, r);
        ClosureOfStocked(o, batch, w, visited + {r}, r);
        var a := ClosureOf(o, w, visited + {r}, [r]);
        SubsetSize(o.universe - a.visited, o.universe - (visited + {r}));
        if a.outcome.ClosureComplete? {
          ReferencesFirstStocked(o, batch, a.world, a.visited, rest);
        }
      }
    }
  }

  /** The batch itself, fetched last, completes an order of all it reaches. */
  lemma BatchLast(o: Outside, w: World, paths: seq<StorePath>)
    requires Alone(o) && Stocked(o, Elements(paths), w) && Registers(o, w, paths)
    ensures !MeetsCycle(o, Elements(paths))
  {
    var batch, order := Elements(paths), Arrived(w.trace);
    var g := Contracted(o, batch);
    forall p, q | p in paths && Edge(g, p, q)
      ensures q in order
    {
      assert p in batch;
      var b :| b in batch && q in o.declared(b);
      assert b in paths && b !in w.store;
      assert q in Elements(order);
    }
    OrderGrows(g, order, paths);
    assert batch <= Elements(order + paths);
    OrderLeadsToNoCycle(g, order + paths, batch);
  }

  /** From an empty store, only a batch that meets no cycle can be substituted. */
  lemma CompleteMeetsNoCycle(o: Outside, paths: seq<StorePath>)
    requires Bounded(o) && Alone(o)
    ensures SubstituteClosure(o, World(map[], []), paths).outcome.ClosureComplete? ==> !MeetsCycle(o, Elements(paths))
  {
    if SubstituteClosure(o, World(map[], []), paths).outcome.ClosureComplete? {
      if paths == [] {
        assert Elements(paths) == {};
      } else {
        LastFetch(o, paths);
        HeldStocked(o, paths);
        BatchLast(o, BeforeFetch(o, paths), paths);
      }
    }
  }

  /** What a batch is fetched on, once its references are held. */
  ghost function BeforeFetch(o: Outside, paths: seq<StorePath>): World
    requires Bounded(o)
    requires var answer := AskAll(o, World(map[], []), paths).answer; answer.Ok? && answer.value.Some?
  {
    AskedAreBounded(o, World(map[], []), paths);
    var asked := AskAll(o, World(map[], []), paths);
    ReferencesFirst(o, asked.world, Elements(paths), References(asked, paths)).world
  }

  /** A completed substitution ended by registering its batch. */
  lemma LastFetch(o: Outside, paths: seq<StorePath>)
    requires Bounded(o) && paths != []
    requires SubstituteClosure(o, World(map[], []), paths).outcome.ClosureComplete?
    ensures var answer := AskAll(o, World(map[], []), paths).answer; answer.Ok? && answer.value.Some?
    ensures Registers(o, BeforeFetch(o, paths), paths)
  {
    NoneMissing(World(map[], []), paths);
    AskedAreBounded(o, World(map[], []), paths);
  }

  lemma HeldStocked(o: Outside, paths: seq<StorePath>)
    requires Bounded(o) && Alone(o)
    requires var answer := AskAll(o, World(map[], []), paths).answer; answer.Ok? && answer.value.Some?
    ensures Stocked(o, Elements(paths), BeforeFetch(o, paths))
  {
    var batch, asked := Elements(paths), AskAll(o, World(map[], []), paths);
    EmptyStocked(o, batch);
    AskAllStocked(o, batch, World(map[], []), paths);
    AskedAreBounded(o, World(map[], []), paths);
    ReferencesFirstStocked(o, batch, asked.world, batch, References(asked, paths));
  }

  lemma EmptyStocked(o: Outside, batch: set<StorePath>)
    ensures Stocked(o, batch, World(map[], []))
  {
  }

  // ---- Where nothing else is in the way ---------------------------------

  /** The caches offer and deliver a batch and everything they name. */
  ghost predicate Generous(o: Outside, batch: set<StorePath>) {
    && Honest(o) && Alone(o)
    && (forall h, p :: p in o.universe + batch ==> o.offer(h, p).Offered?)
    && (forall h, b :: o.fetch(h, b).Fetched?)
  }

  lemma {:induction false} AskAllGenerous(o: Outside, batch: set<StorePath>, w: World, paths: seq<StorePath>)
    requires Generous(o, batch) && Elements(paths) <= o.universe + batch
    ensures var answer := AskAll(o, w, paths).answer; answer.Ok? && answer.value.Some?
    decreases |paths|
  {
    if paths != [] {
      assert paths[0] in Elements(paths) && Elements(paths[1..]) <= Elements(paths);
      AskAllGenerous(o, batch, AfterQuery(o, w, paths[0]), paths[1..]);
    }
  }

  lemma {:induction false} ClosureOfGenerous(o: Outside, batch: set<StorePath>, w: World, visited: set<StorePath>,
                                             paths: seq<StorePath>)
    requires Generous(o, batch) && Elements(paths) <= o.universe + batch
    ensures var a := ClosureOf(o, w, visited, paths);
            FetchesInOrder(o, |w.trace|, a.world.trace) ==> a.outcome.ClosureComplete?
    decreases |o.universe - visited|, 1, 0
  {
    var missing := Missing(w, paths);
    var asked := AskAll(o, w, missing);
    assert Elements(missing) <= Elements(paths);
    AskAllGenerous(o, batch, w, missing);
    AskAllInOrder(o, w, missing);
    AskedAreBounded(o, w, missing);
    if missing != [] {
      var held := ReferencesFirst(o, asked.world, visited, References(asked, missing));
      ReferencesFirstGenerous(o, batch, asked.world, visited, References(asked, missing));
      ReferencesFirstGrows(o, asked.world, visited, References(asked, missing));
      var a := ClosureOf(o, w, visited, paths);
      if FetchesInOrder(o, |w.trace|, a.world.trace) {
        InOrderPart(o, |w.trace|, held.world.trace, a.world.trace);
        InOrderPart(o, |w.trace|, asked.world.trace, held.world.trace);
        assert held.outcome.ClosureComplete?;
        InOrderRegisters(o, held.world, missing, a.world.trace[|held.world.trace|]);
      }
    }
  }

  lemma {:induction false} ReferencesFirstGenerous(o: Outside, batch: set<StorePath>, w: World, visited: set<StorePath>,
                                                   references: seq<StorePath>)
    requires Generous(o, batch) && Elements(references) <= o.universe
    ensures var a := ReferencesFirst(o, w, visited, references);
            FetchesInOrder(o, |w.trace|, a.world.trace) ==> a.outcome.ClosureComplete?
    decreases |o.universe - visited|, 0, |references|
  {
    if references != [] {
      var r, rest := references[0], references[1..];
      if r in visited {
        ReferencesFirstGenerous(o, batch, w, visited, rest);
      } else {
        Shrinks(o, visited, r);
        assert Elements([r]) == {r};
        ClosureOfGenerous(o, batch, w, visited + {r}, [r]);
        ClosureOfGrows(o, w, visited + {r}, [r]);
        var a := ClosureOf(o, w, visited + {r}, [r]);
        SubsetSize(o.universe - a.visited, o.universe - (visited + {r}));
        if a.outcome.ClosureComplete? {
          var later := ReferencesFirst(o, a.world, a.visited, rest);
          ReferencesFirstGenerous(o, batch, a.world, a.visited, rest);
          ReferencesFirstGrows(o, a.world, a.visited, rest);
          if FetchesInOrder(o, |w.trace|, later.world.trace) {
            InOrderPart(o, |w.trace|, a.world.trace, later.world.trace);
          }
        }
      }
    }
  }

  /** With everything offered and delivered to an empty store, the references come
      first, and the substitution completes, exactly when no cycle of declared
      references is reached from the batch. */
  lemma OrderIsExact(o: Outside, paths: seq<StorePath>)
    requires Generous(o, Elements(paths))
    ensures var a := SubstituteClosure(o, World(map[], []), paths);
            && (FetchesInOrder(o, 0, a.world.trace) <==> !MeetsCycle(o, Elements(paths)))
            && (a.outcome.ClosureComplete? <==> !MeetsCycle(o, Elements(paths)))
  {
    var w, batch := World(map[], []), Elements(paths);
    ClosureOfGenerous(o, batch, w, batch, paths);
    CompleteMeetsNoCycle(o, paths);
    if !MeetsCycle(o, batch) {
      SubstituteInOrder(o, w, paths);
    }
  }

  // ---- The smallest cycle -----------------------------------------------

  /** Two paths, each declared to reference the other, on offer everywhere. */
  function Mutual(): Outside {
    Outside({1, 2},
            p => if p == 1 then {2} else if p == 2 then {1} else {},
            (h, p) => if p == 1 then Offered({2}) else if p == 2 then Offered({1}) else NotOffered,
            (h, batch) => Fetched,
            (h, node) => Err(""),
            (h, p) => {},
            h => map[])
  }

  lemma AskOne(o: Outside, w: World, p: StorePath)
    requires o.offer(w.trace, p).Offered?
    ensures AskAll(o, w, [p]) == Asked(Ok(Some(o.offer(w.trace, p).references)), AfterQuery(o, w, p))
  {
    var w1 := AfterQuery(o, w, p);
    assert AskAll(o, w1, [p][1..]) == Asked(Ok(Some({})), w1);
    assert o.offer(w.trace, p).references + {} == o.offer(w.trace, p).references;
  }

  /** Fetching one path none of whose references is still to visit. */
  lemma FetchOne(o: Outside, w: World, visited: set<StorePath>, p: StorePath, q: StorePath)
    requires Bounded(o) && o.offer(w.trace, p) == Offered({q}) && p != q && q in visited && p !in w.store
    ensures var w1 := AfterQuery(o, w, p);
            ClosureOf(o, w, visited, [p]) ==
              Attempt(FetchedClosure(FetchAnswer(o, w1, [p])), visited, AfterFetch(o, w1, [p]))
  {
    assert Missing(w, [p]) == [p];
    AskOne(o, w, p);
    ReferencesOf(p, q);
    var w1 := AfterQuery(o, w, p);
    assert ReferencesFirst(o, w1, visited, [q]) == Attempt(ClosureComplete, visited, w1) by {
      assert ReferencesFirst(o, w1, visited, [q][1..]) == Attempt(ClosureComplete, visited, w1);
    }
  }

  lemma ReferencesOf(p: StorePath, q: StorePath)
    requires p != q
    ensures Sorting.AscendingPaths({q} - Elements([p])) == [q]
  {
    assert {q} - Elements([p]) == {q};
    Sorting.AscendingPathsIncrease({q});
  }

  /** A path whose one reference fails is not fetched. */
  lemma FailsWithReference(o: Outside, w: World, visited: set<StorePath>, p: StorePath, q: StorePath, inner: Attempt)
    requires Bounded(o) && o.offer(w.trace, p) == Offered({q}) && p != q && p !in w.store
    requires q in o.universe && q !in visited
    requires inner == ClosureOf(o, AfterQuery(o, w, p), visited + {q}, [q]) && inner.outcome.ClosureFailed?
    ensures ClosureOf(o, w, visited, [p]) == inner
  {
    assert Missing(w, [p]) == [p];
    AskOne(o, w, p);
    ReferencesOf(p, q);
    assert ReferencesFirst(o, AfterQuery(o, w, p), visited, [q]) == inner;
  }

  /** The walk asks about both paths, then fetches the second, which is refused. */
  lemma CycleRun(o: Outside, w: World, p: StorePath, q: StorePath)
    requires Bounded(o) && Alone(o) && p != q && q in o.universe && w.store == map[]
    requires forall h :: o.offer(h, p) == Offered({q}) && o.offer(h, q) == Offered({p})
    requires forall h, batch :: o.fetch(h, batch).Fetched?
    requires p in o.declared(q)
    ensures var w2 := AfterQuery(o, AfterQuery(o, w, p), q);
            && FetchAnswer(o, w2, [q]).FetchFailed?
            && SubstituteClosure(o, w, [p]) == Attempt(ClosureFailed, {p} + {q}, AfterFetch(o, w2, [q]))
  {
    var w1 := AfterQuery(o, w, p);
    var w2 := AfterQuery(o, w1, q);
    assert q !in w1.store && q !in w2.store && q in [q] && p !in Elements([q]);
    FetchOne(o, w1, {p} + {q}, q, p);
    FailsWithReference(o, w, {p}, p, q, ClosureOf(o, w1, {p} + {q}, [q]));
    assert Elements([p]) == {p};
  }

  /** Two paths that declare each other: the walk ends at the visited set, the
      path that closes the cycle is fetched before its reference is valid, and
      its registration is refused. */
  lemma MutualFails()
    ensures var a := SubstituteClosure(Mutual(), World(map[], []), [1]);
            && a.outcome == ClosureFailed && a.world.store == map[]
            && a.world.trace == [Query(1), Query(2), Fetch([2], FetchFailed, map[])]
            && !InOrder(Mutual(), a.world.trace[2])
  {
    var o, w0 := Mutual(), World(map[], []);
    CycleRun(o, w0, 1, 2);
    var w2 := AfterQuery(o, AfterQuery(o, w0, 1), 2);
    assert w2 == World(map[], [Query(1), Query(2)]);
    assert AfterFetch(o, w2, [2]) == World(map[], w2.trace + [Fetch([2], FetchFailed, map[])]);
    assert 2 in [2] && 1 in o.declared(2) && 1 !in Elements([2]);
  }
}
