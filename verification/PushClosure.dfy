/** The closure a push publishes, references first (src/Nix/Push.hs). */
module PushClosure {
  import opened Basics
  import opened Digraph
  import opened OutputOrder

  /** The store database over the paths it and a push's roots name: each path's
      recorded references (none when one does not parse), and its hash part. */
  datatype Store = Store(paths: set<StorePath>, refs: StorePath -> Option<seq<StorePath>>, hash: StorePath -> nat) {
    predicate Valid() {
      forall p, q :: p in paths && refs(p).Some? && q in refs(p).value ==> q in paths
    }

    /** Hash parts tell the paths apart. */
    predicate Distinct() {
      forall p, q :: p in paths && q in paths && hash(p) == hash(q) ==> p == q
    }

    function References(): Graph {
      map p | p in paths :: if refs(p).Some? then Elements(refs(p).value) else {}
    }
  }

  /** The hashes seen, and the paths listed so far, the last first. */
  datatype Progress = Progress(seen: set<nat>, listed: seq<StorePath>)

  function Hashes(s: Store, ps: set<StorePath>): set<nat> {
    set p | p in ps :: s.hash(p)
  }

  /** A path not seen yet is listed after everything it references. */
  function VisitPath(s: Store, w: Progress, p: StorePath): (r: Option<Progress>)
    requires s.Valid() && p in s.paths
    ensures r.Some? ==> w.seen <= r.value.seen
    decreases |Hashes(s, s.paths) - w.seen|, 0, 0
  {
    if s.hash(p) in w.seen then Some(w)
    else match s.refs(p)
      case None => None
      case Some(refs) =>
        FewerUnseen(s, w.seen, p);
        match VisitAll(s, w.(seen := w.seen + {s.hash(p)}), refs)
        case None => None
        case Some(after) => Some(after.(listed := [p] + after.listed))
  }

  function VisitAll(s: Store, w: Progress, ps: seq<StorePath>): (r: Option<Progress>)
    requires s.Valid() && forall p :: p in ps ==> p in s.paths
    ensures r.Some? ==> w.seen <= r.value.seen
    decreases |Hashes(s, s.paths) - w.seen|, 1, |ps|
  {
    if ps == [] then Some(w)
    else match VisitPath(s, w, ps[0])
      case None => None
      case Some(after) =>
        SubsetSize(Hashes(s, s.paths) - after.seen, Hashes(s, s.paths) - w.seen);
        VisitAll(s, after, ps[1..])
  }

  lemma FewerUnseen(s: Store, seen: set<nat>, p: StorePath)
    requires p in s.paths && s.hash(p) !in seen
    ensures |Hashes(s, s.paths) - (seen + {s.hash(p)})| < |Hashes(s, s.paths) - seen|
  {
    var all := Hashes(s, s.paths);
    assert s.hash(p) in all;
    assert all - (seen + {s.hash(p)}) == (all - seen) - {s.hash(p)};
  }

  function ComputeClosure(s: Store, roots: seq<StorePath>): Option<seq<StorePath>>
    requires s.Valid() && forall p :: p in roots ==> p in s.paths
  {
    match VisitAll(s, Progress({}, []), roots)
    case None => None
    case Some(w) => Some(Reverse(w.listed))
  }

  /** The paths whose narinfo the cache does not have. */
  function PlanMissing(s: Store, remote: set<nat>, closure: seq<StorePath>): seq<StorePath> {
    if closure == [] then []
    else (if s.hash(closure[0]) in remote then [] else [closure[0]]) + PlanMissing(s, remote, closure[1..])
  }

  // ---- The walk ---------------------------------------------------------

  /** A set of paths that references do not lead out of. */
  ghost predicate Shut(s: Store, reached: set<StorePath>) {
    reached <= s.paths && forall p, q :: p in reached && s.refs(p).Some? && q in s.refs(p).value ==> q in reached
  }

  /** What is seen is on the path or listed, once, with references seen too; and
      after them, if nothing reached is on a cycle. */
  ghost predicate Consistent(s: Store, reached: set<StorePath>, onPath: set<StorePath>, w: Progress) {
    var listed := Elements(w.listed);
    && onPath + listed <= reached
    && onPath !! listed
    && w.seen == Hashes(s, onPath + listed)
    && NoDuplicates(w.listed)
    && (forall p :: p in w.listed ==> s.refs(p).Some?)
    && (forall p, q :: p in w.listed && s.refs(p).Some? && q in s.refs(p).value ==> q in onPath + listed)
    && (CycleFree(s, reached) ==> SuccessorsFirst(Proper(s.References()), Reverse(w.listed)))
  }

  /** None of the paths is on a cycle but its reference to itself. */
  ghost predicate CycleFree(s: Store, paths: set<StorePath>) {
    forall p :: p in paths ==> !ReachesPast(Proper(s.References()), p, p)
  }

  ghost predicate SomeUnreadable(s: Store, reached: set<StorePath>) {
    exists p :: p in reached && s.refs(p).None?
  }

  ghost predicate PathsReach(s: Store, onPath: set<StorePath>, p: StorePath) {
    forall a :: a in onPath ==> Reaches(Proper(s.References()), a, p)
  }

  lemma {:induction false} VisitPathWalks(s: Store, reached: set<StorePath>, onPath: set<StorePath>, w: Progress,
                                          p: StorePath)
    requires s.Valid() && s.Distinct() && Shut(s, reached) && p in reached
    requires Consistent(s, reached, onPath, w) && (p in onPath || PathsReach(s, onPath, p))
    ensures var r := VisitPath(s, w, p);
            && (r.None? ==> SomeUnreadable(s, reached))
            && (r.Some? ==> Consistent(s, reached, onPath, r.value) && p in onPath + Elements(r.value.listed)
                            && Elements(w.listed) <= Elements(r.value.listed))
    decreases |Hashes(s, s.paths) - w.seen|, 0, 0
  {
    if s.hash(p) in w.seen {
      SeenIsThere(s, reached, onPath, w, p);
    } else if s.refs(p).Some? {
      var refs := s.refs(p).value;
      var inside := w.(seen := w.seen + {s.hash(p)});
      FewerUnseen(s, w.seen, p);
      EnterKeepsConsistent(s, reached, onPath, w, p);
      EnterReaches(s, onPath, p);
      VisitAllWalks(s, reached, onPath + {p}, inside, refs, p);
      var after := VisitAll(s, inside, refs);
      if after.Some? {
        FinishKeepsConsistent(s, reached, onPath, after.value, p);
        assert VisitPath(s, w, p) == Some(after.value.(listed := [p] + after.value.listed));
      } else {
        assert VisitPath(s, w, p) == None;
      }
    } else {
      assert VisitPath(s, w, p) == None;
    }
  }

  lemma SeenIsThere(s: Store, reached: set<StorePath>, onPath: set<StorePath>, w: Progress, p: StorePath)
    requires s.Distinct() && Shut(s, reached) && p in reached && Consistent(s, reached, onPath, w)
             && s.hash(p) in w.seen
    ensures p in onPath + Elements(w.listed)
  {
    var q :| q in onPath + Elements(w.listed) && s.hash(q) == s.hash(p);
  }

  lemma EnterKeepsConsistent(s: Store, reached: set<StorePath>, onPath: set<StorePath>, w: Progress, p: StorePath)
    requires Consistent(s, reached, onPath, w) && p in reached && s.hash(p) !in w.seen
    ensures p !in onPath + Elements(w.listed)
    ensures Consistent(s, reached, onPath + {p}, w.(seen := w.seen + {s.hash(p)}))
  {
    var all := onPath + Elements(w.listed);
    assert p !in all;
    assert onPath + {p} + Elements(w.listed) == all + {p};
    assert Hashes(s, all + {p}) == Hashes(s, all) + {s.hash(p)};
  }

  lemma EnterReaches(s: Store, onPath: set<StorePath>, p: StorePath)
    requires p in s.paths && PathsReach(s, onPath, p)
    ensures PathsReach(s, onPath + {p}, p)
  {
    ReachesSelf(Proper(s.References()), p);
  }

  lemma FinishKeepsConsistent(s: Store, reached: set<StorePath>, onPath: set<StorePath>, w: Progress, p: StorePath)
    requires s.Valid() && Shut(s, reached) && p in reached && p !in onPath && s.refs(p).Some?
    requires Consistent(s, reached, onPath + {p}, w) && PathsReach(s, onPath, p)
    requires forall q :: q in s.refs(p).value ==> q in onPath + {p} + Elements(w.listed)
    ensures Consistent(s, reached, onPath, w.(listed := [p] + w.listed))
    ensures Elements([p] + w.listed) == {p} + Elements(w.listed)
  {
    var listed := [p] + w.listed;
    assert Elements(listed) == {p} + Elements(w.listed);
    assert onPath + Elements(listed) == onPath + {p} + Elements(w.listed);
    if CycleFree(s, reached) {
      forall q | Edge(Proper(s.References()), p, q)
        ensures q in w.listed
      {
        assert q in onPath ==> ReachesPast(Proper(s.References()), p, p);
      }
      AppendLast(Proper(s.References()), w.listed, p);
    }
  }

  /** A path may be listed once all it references are. */
  lemma AppendLast(g: Graph, listed: seq<Node>, p: Node)
    requires SuccessorsFirst(g, Reverse(listed)) && forall q :: Edge(g, p, q) ==> q in listed
    ensures SuccessorsFirst(g, Reverse([p] + listed))
  {
    var order := Reverse(listed);
    assert Reverse([p] + listed) == order + [p];
    forall i, b | 0 <= i < |order + [p]| && Edge(g, (order + [p])[i], b)
      ensures b in (order + [p])[..i]
    {
      if i < |order| {
        assert (order + [p])[..i] == order[..i];
      } else {
        assert (order + [p])[..i] == order;
        var j :| 0 <= j < |listed| && listed[j] == b;
        assert order[|order| - 1 - j] == b;
      }
    }
  }

  lemma {:induction false} VisitAllWalks(s: Store, reached: set<StorePath>, onPath: set<StorePath>, w: Progress,
                                         ps: seq<StorePath>, from: StorePath)
    requires s.Valid() && s.Distinct() && Shut(s, reached) && forall p :: p in ps ==> p in reached
    requires Consistent(s, reached, onPath, w) && PathsReach(s, onPath, from)
    requires onPath == {} || (from in onPath && s.refs(from).Some? && forall p :: p in ps ==> p in s.refs(from).value)
    ensures var r := VisitAll(s, w, ps);
            && (r.None? ==> SomeUnreadable(s, reached))
            && (r.Some? ==> Consistent(s, reached, onPath, r.value)
                            && (forall p :: p in ps ==> p in onPath + Elements(r.value.listed))
                            && Elements(w.listed) <= Elements(r.value.listed))
    decreases |Hashes(s, s.paths) - w.seen|, 1, |ps|
  {
    if ps != [] {
      var p := ps[0];
      if p !in onPath {
        NextReaches(s, onPath, from, p);
      }
      VisitPathWalks(s, reached, onPath, w, p);
      var one := VisitPath(s, w, p);
      if one.Some? {
        SubsetSize(Hashes(s, s.paths) - one.value.seen, Hashes(s, s.paths) - w.seen);
        VisitAllWalks(s, reached, onPath, one.value, ps[1..], from);
      }
    }
  }

  lemma NextReaches(s: Store, onPath: set<StorePath>, from: StorePath, p: StorePath)
    requires p in s.paths && p !in onPath && PathsReach(s, onPath, from)
    requires onPath == {} || (from in onPath && from in s.paths && s.refs(from).Some? && p in s.refs(from).value)
    ensures PathsReach(s, onPath, p)
  {
    if onPath != {} {
      assert Edge(Proper(s.References()), from, p);
      forall a | a in onPath
        ensures Reaches(Proper(s.References()), a, p)
      {
        ReachesStep(Proper(s.References()), a, from, p);
      }
    }
  }

  // ---- What the closure is ----------------------------------------------

  ghost predicate ReachedFrom(s: Store, roots: seq<StorePath>, p: StorePath) {
    exists root :: root in roots && Reaches(s.References(), root, p)
  }

  ghost function Reachable(s: Store, roots: seq<StorePath>): set<StorePath> {
    set p | p in s.paths && ReachedFrom(s, roots, p)
  }

  lemma ReachableIsShut(s: Store, roots: seq<StorePath>)
    requires s.Valid() && forall p :: p in roots ==> p in s.paths
    ensures Shut(s, Reachable(s, roots)) && forall p :: p in roots ==> p in Reachable(s, roots)
  {
    forall p | p in roots
      ensures p in Reachable(s, roots)
    {
      ReachesSelf(s.References(), p);
    }
    forall p, q | p in Reachable(s, roots) && s.refs(p).Some? && q in s.refs(p).value
      ensures q in Reachable(s, roots)
    {
      var root :| root in roots && Reaches(s.References(), root, p);
      assert Edge(s.References(), p, q);
      ReachesStep(s.References(), root, p, q);
    }
  }

  /** The closure is refused exactly when a path in it has an unreadable reference;
      otherwise it lists what the roots reach, each path once, and references first
      exactly when none of it is on a cycle but a path's reference to itself. */
  lemma ClosureIsExact(s: Store, roots: seq<StorePath>)
    requires s.Valid() && s.Distinct() && forall p :: p in roots ==> p in s.paths
    ensures var r := ComputeClosure(s, roots);
            && (r.None? <==> SomeUnreadable(s, Reachable(s, roots)))
            && (r.Some? ==> NoDuplicates(r.value) && Elements(r.value) == Reachable(s, roots))
            && (r.Some? ==> (SuccessorsFirst(Proper(s.References()), r.value) <==> CycleFree(s, Reachable(s, roots))))
  {
    WalkOfRoots(s, roots);
    var r := VisitAll(s, Progress({}, []), roots);
    if r.Some? {
      ListedMeans(s, roots, r.value);
    }
  }

  lemma WalkOfRoots(s: Store, roots: seq<StorePath>)
    requires s.Valid() && s.Distinct() && forall p :: p in roots ==> p in s.paths
    ensures Shut(s, Reachable(s, roots))
    ensures var r := VisitAll(s, Progress({}, []), roots);
            && (r.None? ==> SomeUnreadable(s, Reachable(s, roots)))
            && (r.Some? ==> Consistent(s, Reachable(s, roots), {}, r.value) && forall p :: p in roots ==>
                 p in r.value.listed)
  {
    var reached, start := Reachable(s, roots), Progress({}, []);
    ReachableIsShut(s, roots);
    StartIsConsistent(s, reached);
    VisitAllWalks(s, reached, {}, start, roots, 0);
  }

  lemma ListedMeans(s: Store, roots: seq<StorePath>, w: Progress)
    requires s.Valid() && Shut(s, Reachable(s, roots)) && Consistent(s, Reachable(s, roots), {}, w)
    requires forall p :: p in roots ==> p in w.listed
    ensures var order := Reverse(w.listed);
            && !SomeUnreadable(s, Reachable(s, roots))
            && NoDuplicates(order) && Elements(order) == Reachable(s, roots)
            && (SuccessorsFirst(Proper(s.References()), order) <==> CycleFree(s, Reachable(s, roots)))
  {
    ReversedHolds(w.listed);
    ListedIsReached(s, roots, w);
    OrderIsCycleFree(s, Reverse(w.listed));
  }

  lemma StartIsConsistent(s: Store, reached: set<StorePath>)
    ensures Consistent(s, reached, {}, Progress({}, []))
  {
    assert Reverse<StorePath>([]) == [];
    assert Hashes(s, {} + Elements([])) == {};
  }

  lemma ListedIsReached(s: Store, roots: seq<StorePath>, w: Progress)
    requires s.Valid() && Shut(s, Reachable(s, roots)) && Consistent(s, Reachable(s, roots), {}, w)
    requires forall p :: p in roots ==> p in w.listed
    ensures Elements(w.listed) == Reachable(s, roots) && !SomeUnreadable(s, Reachable(s, roots))
  {
    var reached, listed := Reachable(s, roots), Elements(w.listed);
    forall p | p in reached
      ensures p in listed
    {
      var root :| root in roots && Reaches(s.References(), root, p);
      assert forall x, y :: x in listed && Edge(s.References(), x, y) ==> y in listed;
      ClosedHoldsReachable(s.References(), listed, root);
    }
    assert listed == reached;
  }

  lemma OrderIsCycleFree(s: Store, order: seq<StorePath>)
    ensures SuccessorsFirst(Proper(s.References()), order) ==> CycleFree(s, Elements(order))
  {
    if SuccessorsFirst(Proper(s.References()), order) {
      forall p | p in Elements(order)
        ensures !ReachesPast(Proper(s.References()), p, p)
      {
        NotOnCycle(Proper(s.References()), order, p);
      }
    }
  }
}
