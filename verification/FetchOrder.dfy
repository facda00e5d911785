/** A substitution that meets no cycle of declared references fetches references
    before what names them. */
module FetchOrder {
  import opened Basics
  import opened Digraph
  import opened Realisation
  import opened ClosureSafety

  /** Offers name what a fetch will register. */
  ghost predicate Honest(o: Outside) {
    Bounded(o) && forall h, p :: o.offer(h, p).Offered? ==> o.offer(h, p).references == o.declared(p)
  }

  /** A fetch is issued with every reference outside its batch valid. */
  ghost predicate InOrder(o: Outside, e: Event) {
    e.Fetch? ==> forall p :: p in e.batch ==> o.declared(p) <= e.before.Keys + Elements(e.batch)
  }

  /** What a trace gained from some point on is in order. */
  ghost predicate FetchesInOrder(o: Outside, from: nat, t: Trace) {
    from <= |t| && forall i :: from <= i < |t| ==> InOrder(o, t[i])
  }

  lemma InOrderLater(o: Outside, from: nat, t: Trace, t': Trace)
    requires t <= t' && FetchesInOrder(o, from, t) && FetchesInOrder(o, |t|, t')
    ensures FetchesInOrder(o, from, t')
  {
  }

  lemma InOrderPart(o: Outside, from: nat, t: Trace, t': Trace)
    requires from <= |t| && t <= t' && FetchesInOrder(o, from, t')
    ensures FetchesInOrder(o, from, t) && FetchesInOrder(o, |t|, t')
  {
    assert forall i :: 0 <= i < |t| ==> t[i] == t'[i];
  }

  /** A fetch issued in order is not refused its registration. */
  lemma InOrderRegisters(o: Outside, w: World, batch: seq<StorePath>, e: Event)
    requires InOrder(o, e) && e.Fetch? && e.batch == batch && e.before == w.store
    ensures Registers(o, w, batch)
  {
  }

  lemma {:induction false} AskAllInOrder(o: Outside, w: World, paths: seq<StorePath>)
    ensures FetchesInOrder(o, |w.trace|, AskAll(o, w, paths).world.trace)
    ensures w.trace <= AskAll(o, w, paths).world.trace
    decreases |paths|
  {
    if paths != [] {
      AskAllInOrder(o, AfterQuery(o, w, paths[0]), paths[1..]);
    }
  }

  // ---- The declared references around a batch ---------------------------

  /** The declared references with a batch drawn together: each member of the
      batch refers to whatever any of them does, a reference to one member
      refers to all, and a path's reference to itself is dropped. */
  ghost function Contracted(o: Outside, batch: set<StorePath>): Graph {
    map p | p in o.universe + batch :: ContractedReferences(o, batch, p)
  }

  ghost function ContractedReferences(o: Outside, batch: set<StorePath>, p: StorePath): set<StorePath> {
    if p in batch then (set b, q | b in batch && q in o.declared(b) :: q) - batch
    else (o.declared(p) - {p}) + (if o.declared(p) * batch == {} then {} else batch)
  }

  /** A cycle of declared references is reached from the batch. */
  ghost predicate MeetsCycle(o: Outside, batch: set<StorePath>) {
    LeadsToCycle(Contracted(o, batch), batch)
  }

  ghost predicate Reached(o: Outside, batch: set<StorePath>, p: StorePath) {
    ReachedFromAny(Contracted(o, batch), batch, p)
  }

  ghost function Depth(o: Outside, batch: set<StorePath>, p: StorePath): nat {
    Rank(Contracted(o, batch), p)
  }

  /** Where no cycle is met, a reference is shallower than what names it. */
  lemma DeclaredDescends(o: Outside, batch: set<StorePath>, p: StorePath, q: StorePath)
    requires !MeetsCycle(o, batch) && Reached(o, batch, p)
    requires q in o.declared(p) && q in o.universe && q != p && !(p in batch && q in batch)
    ensures Reached(o, batch, q) && Depth(o, batch, q) < Depth(o, batch, p)
  {
    var g := Contracted(o, batch);
    var a :| a in batch && Reaches(g, a, p);
    ReachedIsNode(g, a, p);
    assert Edge(g, p, q);
    ReachesStep(g, a, p, q);
    assert Reached(o, batch, q);
    RankFalls(g, p, q);
  }

  lemma BatchIsLevel(o: Outside, batch: set<StorePath>, p: StorePath, q: StorePath)
    requires p in batch && q in batch
    ensures Depth(o, batch, p) == Depth(o, batch, q) && Reached(o, batch, p)
  {
    var g := Contracted(o, batch);
    ReachesSelf(g, p);
    assert g[p] == g[q];
    forall x
      ensures ReachesPast(g, p, x) == ReachesPast(g, q, x)
    {
      assert forall next :: Edge(g, p, next) == Edge(g, q, next);
    }
    assert Beyond(g, p) == Beyond(g, q);
  }

  lemma {:induction false} AskAllDeclared(o: Outside, w: World, paths: seq<StorePath>)
    requires Honest(o)
    ensures var answer := AskAll(o, w, paths).answer;
            answer.Ok? && answer.value.Some? ==> answer.value.value == AllDeclared(o, paths)
    decreases |paths|
  {
    if paths != [] {
      AskAllDeclared(o, AfterQuery(o, w, paths[0]), paths[1..]);
    }
  }

  ghost function AllDeclared(o: Outside, paths: seq<StorePath>): set<StorePath> {
    if paths == [] then {} else o.declared(paths[0]) + AllDeclared(o, paths[1..])
  }

  lemma {:induction false} DeclaredByOne(o: Outside, paths: seq<StorePath>, q: StorePath) returns (p: StorePath)
    requires q in AllDeclared(o, paths)
    ensures p in paths && q in o.declared(p)
  {
    if q in o.declared(paths[0]) {
      p := paths[0];
    } else {
      p := DeclaredByOne(o, paths[1..], q);
    }
  }

  lemma {:induction false} AllDeclaredHolds(o: Outside, paths: seq<StorePath>, p: StorePath)
    requires p in paths
    ensures o.declared(p) <= AllDeclared(o, paths)
  {
    if p != paths[0] {
      AllDeclaredHolds(o, paths[1..], p);
    }
  }

  // ---- Where no cycle is met, references come first ---------------------

  /** Every visited path is valid, or no shallower than what is being fetched:
      an ancestor on the way here. */
  ghost predicate Settled(o: Outside, batch: set<StorePath>, w: World, visited: set<StorePath>, depth: nat) {
    && batch <= visited
    && forall v :: v in visited ==> v in w.store || Depth(o, batch, v) >= depth
  }

  lemma SettledLater(o: Outside, batch: set<StorePath>, w: World, w': World, visited: set<StorePath>,
                     deeper: set<StorePath>, depth: nat)
    requires Settled(o, batch, w, visited, depth) && Grows(w, w')
    requires visited <= deeper && deeper - visited <= w'.store.Keys
    ensures Settled(o, batch, w', deeper, depth)
  {
  }

  /** A reference still to fetch: shallower than its referrer, or a valid
      member of the batch. */
  ghost predicate Deferred(o: Outside, batch: set<StorePath>, w: World, visited: set<StorePath>, depth: nat,
                           r: StorePath) {
    || (r in w.store && r in visited)
    || (r in o.universe && Reached(o, batch, r) && Depth(o, batch, r) < depth)
  }

  ghost predicate AllDeferred(o: Outside, batch: set<StorePath>, w: World, visited: set<StorePath>, depth: nat,
                              references: seq<StorePath>) {
    forall r :: r in references ==> Deferred(o, batch, w, visited, depth, r)
  }

  lemma AllDeferredLater(o: Outside, batch: set<StorePath>, w: World, w': World, visited: set<StorePath>,
                         deeper: set<StorePath>, depth: nat, references: seq<StorePath>)
    requires AllDeferred(o, batch, w, visited, depth, references) && |references| > 0
    requires Grows(w, w') && visited <= deeper
    ensures AllDeferred(o, batch, w', deeper, depth, references[1..])
  {
    forall r | r in references[1..]
      ensures Deferred(o, batch, w', deeper, depth, r)
    {
      assert r in references;
      assert Deferred(o, batch, w, visited, depth, r);
    }
  }

  /** The paths one closure call is about: the batch, or one path outside it. */
  ghost predicate Together(o: Outside, batch: set<StorePath>, visited: set<StorePath>, paths: seq<StorePath>,
                           depth: nat) {
    && Elements(paths) <= visited
    && (forall p :: p in paths ==> Reached(o, batch, p) && Depth(o, batch, p) == depth)
    && (Elements(paths) == batch || (|paths| == 1 && paths[0] !in batch))
  }

  lemma ReferenceDeferred(o: Outside, batch: set<StorePath>, w: World, visited: set<StorePath>,
                          paths: seq<StorePath>, depth: nat, p: StorePath, r: StorePath)
    requires !MeetsCycle(o, batch) && r in o.universe
    requires Settled(o, batch, w, visited, depth) && Together(o, batch, visited, paths, depth)
    requires p in Missing(w, paths) && r in o.declared(p) && r !in Missing(w, paths)
    ensures Deferred(o, batch, w, visited, depth, r)
  {
    assert p in Elements(paths);
    if p in batch && r in batch {
      assert r in Elements(paths);
    } else {
      DeclaredDescends(o, batch, p, r);
    }
  }

  lemma ReferencesDeferred(o: Outside, batch: set<StorePath>, w: World, visited: set<StorePath>,
                           paths: seq<StorePath>, depth: nat)
    requires Honest(o) && !MeetsCycle(o, batch)
    requires Settled(o, batch, w, visited, depth) && Together(o, batch, visited, paths, depth)
    ensures var missing := Missing(w, paths);
            var asked := AskAll(o, w, missing);
            asked.answer.Ok? && asked.answer.value.Some? ==>
              AllDeferred(o, batch, asked.world, visited, depth, References(asked, missing))
  {
    var missing := Missing(w, paths);
    var asked := AskAll(o, w, missing);
    AskAllDeclared(o, w, missing);
    AskAllGrows(o, w, missing);
    AskedAreBounded(o, w, missing);
    if asked.answer.Ok? && asked.answer.value.Some? {
      forall r | r in References(asked, missing)
        ensures Deferred(o, batch, asked.world, visited, depth, r)
      {
        var p := DeclaredByOne(o, missing, r);
        ReferenceDeferred(o, batch, w, visited, paths, depth, p, r);
      }
    }
  }

  /** What an attempt leaves: its fetches in order and, once complete, all it
      was about valid. */
  ghost predicate Arranged(o: Outside, w: World, visited: set<StorePath>, paths: set<StorePath>, a: Attempt) {
    && FetchesInOrder(o, |w.trace|, a.world.trace)
    && (a.outcome.ClosureComplete? ==> paths + (a.visited - visited) <= a.world.store.Keys)
  }

  lemma {:induction false} ClosureOfInOrder(o: Outside, batch: set<StorePath>, w: World, visited: set<StorePath>,
                                            paths: seq<StorePath>, depth: nat)
    requires Honest(o) && !MeetsCycle(o, batch)
    requires Settled(o, batch, w, visited, depth) && Together(o, batch, visited, paths, depth)
    ensures Arranged(o, w, visited, Elements(paths), ClosureOf(o, w, visited, paths))
    decreases |o.universe - visited|, 1, 0
  {
    var missing := Missing(w, paths);
    var asked := AskAll(o, w, missing);
    AskAllInOrder(o, w, missing);
    AskAllGrows(o, w, missing);
    if missing != [] && asked.answer.Ok? && asked.answer.value.Some? {
      AskedAreBounded(o, w, missing);
      ReferencesDeferred(o, batch, w, visited, paths, depth);
      SettledLater(o, batch, w, asked.world, visited, visited, depth);
      ReferencesFirstInOrder(o, batch, asked.world, visited, References(asked, missing), depth);
      FetchAfterReferences(o, w, visited, paths);
    }
  }

  /** The fetch that follows the references is issued only once they are valid. */
  lemma FetchAfterReferences(o: Outside, w: World, visited: set<StorePath>, paths: seq<StorePath>)
    requires Honest(o)
    requires var missing := Missing(w, paths);
             var asked := AskAll(o, w, missing);
             && missing != [] && asked.answer.Ok? && asked.answer.value.Some?
             && Elements(References(asked, missing)) <= o.universe
             && Arranged(o, asked.world, visited, Elements(References(asked, missing)),
                         ReferencesFirst(o, asked.world, visited, References(asked, missing)))
    ensures Arranged(o, w, visited, Elements(paths), ClosureOf(o, w, visited, paths))
  {
    var missing := Missing(w, paths);
    var asked := AskAll(o, w, missing);
    AskAllInOrder(o, w, missing);
    AskAllDeclared(o, w, missing);
    AskAllGrows(o, w, missing);
    ReferencesFirstGrows(o, asked.world, visited, References(asked, missing));
    var held := ReferencesFirst(o, asked.world, visited, References(asked, missing));
    InOrderLater(o, |w.trace|, asked.world.trace, held.world.trace);
    if held.outcome.ClosureComplete? {
      forall p | p in missing
        ensures o.declared(p) <= held.world.store.Keys + Elements(missing)
      {
        AllDeclaredHolds(o, missing, p);
      }
      CompleteIsValid(o, w, visited, paths);
    }
  }

  lemma {:induction false} ReferencesFirstInOrder(o: Outside, batch: set<StorePath>, w: World, visited: set<StorePath>,
                                                  references: seq<StorePath>, depth: nat)
    requires Honest(o) && !MeetsCycle(o, batch) && Elements(references) <= o.universe
    requires Settled(o, batch, w, visited, depth) && AllDeferred(o, batch, w, visited, depth, references)
    ensures Arranged(o, w, visited, Elements(references), ReferencesFirst(o, w, visited, references))
    decreases |o.universe - visited|, 0, |references|, 0
  {
    if references != [] {
      var r := references[0];
      FirstSettled(o, batch, w, visited, depth, references);
      if r in visited {
        SkipInOrder(o, batch, w, visited, references, depth);
      } else {
        Shrinks(o, visited, r);
        ReferenceInOrder(o, batch, w, visited, references, depth);
        var a := ClosureOf(o, w, visited + {r}, [r]);
        SubsetSize(o.universe - a.visited, o.universe - (visited + {r}));
        if a.outcome.ClosureComplete? {
          ClosureOfGrows(o, w, visited + {r}, [r]);
          RestInOrder(o, batch, w, visited, references, depth, a);
        }
      }
    }
  }

  lemma {:induction false} SkipInOrder(o: Outside, batch: set<StorePath>, w: World, visited: set<StorePath>,
                                       references: seq<StorePath>, depth: nat)
    requires Honest(o) && !MeetsCycle(o, batch) && Elements(references) <= o.universe && |references| > 0
    requires Settled(o, batch, w, visited, depth) && AllDeferred(o, batch, w, visited, depth, references)
    requires references[0] in w.store
    ensures Arranged(o, w, visited, Elements(references), ReferencesFirst(o, w, visited, references[1..]))
    decreases |o.universe - visited|, 0, |references| - 1, 1
  {
    AllDeferredLater(o, batch, w, w, visited, visited, depth, references);
    ReferencesFirstInOrder(o, batch, w, visited, references[1..], depth);
    ReferencesFirstGrows(o, w, visited, references[1..]);
    ArrangedWith(o, w, visited, references, ReferencesFirst(o, w, visited, references[1..]));
  }

  lemma {:induction false} RestInOrder(o: Outside, batch: set<StorePath>, w: World, visited: set<StorePath>,
                                       references: seq<StorePath>, depth: nat, a: Attempt)
    requires Honest(o) && !MeetsCycle(o, batch) && Elements(references) <= o.universe && |references| > 0
    requires Settled(o, batch, w, visited, depth) && AllDeferred(o, batch, w, visited, depth, references)
    requires visited <= a.visited && |o.universe - a.visited| < |o.universe - visited|
    requires Grows(w, a.world) && a.outcome.ClosureComplete? && Arranged(o, w, visited, {references[0]}, a)
    ensures Arranged(o, w, visited, Elements(references), ReferencesFirst(o, a.world, a.visited, references[1..]))
    decreases |o.universe - visited|, 0, |references| - 1, 1
  {
    AllDeferredLater(o, batch, w, a.world, visited, a.visited, depth, references);
    SettledLater(o, batch, w, a.world, visited, a.visited, depth);
    ReferencesFirstInOrder(o, batch, a.world, a.visited, references[1..], depth);
    ArrangedTogether(o, w, visited, references, a);
  }

  /** The first reference is valid if it was visited. */
  lemma FirstSettled(o: Outside, batch: set<StorePath>, w: World, visited: set<StorePath>, depth: nat,
                     references: seq<StorePath>)
    requires Settled(o, batch, w, visited, depth) && AllDeferred(o, batch, w, visited, depth, references)
    requires |references| > 0
    ensures references[0] in visited ==> references[0] in w.store
  {
    assert Deferred(o, batch, w, visited, depth, references[0]);
  }

  lemma ArrangedWith(o: Outside, w: World, visited: set<StorePath>, references: seq<StorePath>, a: Attempt)
    requires |references| > 0 && references[0] in a.world.store
    requires Arranged(o, w, visited, Elements(references[1..]), a)
    ensures Arranged(o, w, visited, Elements(references), a)
  {
    assert Elements(references) == {references[0]} + Elements(references[1..]);
  }

  lemma ArrangedTogether(o: Outside, w: World, visited: set<StorePath>, references: seq<StorePath>, a: Attempt)
    requires Honest(o) && |references| > 0 && Elements(references[1..]) <= o.universe
    requires w.trace <= a.world.trace && visited <= a.visited && a.outcome.ClosureComplete?
    requires Arranged(o, w, visited, {references[0]}, a)
    requires Arranged(o, a.world, a.visited, Elements(references[1..]),
                      ReferencesFirst(o, a.world, a.visited, references[1..]))
    ensures Arranged(o, w, visited, Elements(references), ReferencesFirst(o, a.world, a.visited, references[1..]))
  {
    var later := ReferencesFirst(o, a.world, a.visited, references[1..]);
    ReferencesFirstGrows(o, a.world, a.visited, references[1..]);
    InOrderLater(o, |w.trace|, a.world.trace, later.world.trace);
    assert Elements(references) == {references[0]} + Elements(references[1..]);
  }

  lemma {:induction false} ReferenceInOrder(o: Outside, batch: set<StorePath>, w: World, visited: set<StorePath>,
                                            references: seq<StorePath>, depth: nat)
    requires Honest(o) && !MeetsCycle(o, batch) && Elements(references) <= o.universe
    requires Settled(o, batch, w, visited, depth) && AllDeferred(o, batch, w, visited, depth, references)
    requires |references| > 0 && references[0] !in visited
    ensures var r := references[0];
            r in o.universe && Arranged(o, w, visited, {r}, ClosureOf(o, w, visited + {r}, [r]))
    decreases |o.universe - visited|, 0, 0
  {
    var r := references[0];
    assert r in Elements(references);
    assert Deferred(o, batch, w, visited, depth, r);
    Shrinks(o, visited, r);
    ReferenceTogether(o, batch, w, visited, r, depth);
    ClosureOfInOrder(o, batch, w, visited + {r}, [r], Depth(o, batch, r));
    ArrangedFrom(o, w, visited, r, ClosureOf(o, w, visited + {r}, [r]));
  }

  lemma ReferenceTogether(o: Outside, batch: set<StorePath>, w: World, visited: set<StorePath>, r: StorePath,
                          depth: nat)
    requires Settled(o, batch, w, visited, depth)
    requires r !in visited && Reached(o, batch, r) && Depth(o, batch, r) < depth
    ensures Settled(o, batch, w, visited + {r}, Depth(o, batch, r))
    ensures Together(o, batch, visited + {r}, [r], Depth(o, batch, r))
  {
  }

  lemma ArrangedFrom(o: Outside, w: World, visited: set<StorePath>, r: StorePath, a: Attempt)
    requires Arranged(o, w, visited + {r}, Elements([r]), a)
    ensures Arranged(o, w, visited, {r}, a)
  {
    assert r in Elements([r]);
    assert a.visited - visited <= {r} + (a.visited - (visited + {r}));
  }

  /** Where no cycle of declared references is reached from the batch, each fetch
      is issued with every reference outside its own batch valid, whatever is
      valid already and however the caches answer. */
  lemma SubstituteInOrder(o: Outside, w: World, paths: seq<StorePath>)
    requires Honest(o) && !MeetsCycle(o, Elements(paths))
    ensures FetchesInOrder(o, |w.trace|, SubstituteClosure(o, w, paths).world.trace)
  {
    var depth := BatchTogether(o, w, paths);
    ClosureOfInOrder(o, Elements(paths), w, Elements(paths), paths, depth);
  }

  lemma BatchTogether(o: Outside, w: World, paths: seq<StorePath>) returns (depth: nat)
    ensures Settled(o, Elements(paths), w, Elements(paths), depth)
    ensures Together(o, Elements(paths), Elements(paths), paths, depth)
  {
    var batch := Elements(paths);
    depth := if paths == [] then 0 else Depth(o, batch, paths[0]);
    forall p | p in paths
      ensures Reached(o, batch, p) && Depth(o, batch, p) == depth
    {
      BatchIsLevel(o, batch, p, paths[0]);
    }
  }
}
