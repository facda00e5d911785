/** What every interleaving of the output-lock protocol keeps. */
module LockSafety {
  import opened Basics
  import opened OutputLocks

  // ---- The invariant ----------------------------------------------------

  function First(locks: seq<StorePath>, n: nat): set<StorePath>
    requires n <= |locks|
  {
    Elements(locks[..n])
  }

  /** The locks of what is fetched are held, and the current path's. */
  ghost predicate HoldsNext(held: set<StorePath>, fetched: set<StorePath>, locks: seq<StorePath>, n: nat)
    requires n < |locks|
  {
    held == fetched + {locks[n]} && locks[n] !in fetched && fetched <= First(locks, n)
  }

  /** The locks a process holds, by where it is. */
  ghost predicate HoldsItsLocks(s: State, i: Pid)
    requires Unfinished(s, i)
  {
    var locks, held, paths := Locks(s.procs[i]), HeldBy(s, i), s.procs[i].todo[0].Outputs();
    match s.procs[i].phase
    case Start => held == {}
    case Acquiring(n) => n <= |locks| && held == First(locks, n)
    case Planning => held == paths
    case Clearing(_, _) => held == paths
    case Building(_) => held == paths
    case Removing(_) => held == paths
    case Taking(n, fetched, _) => n <= |locks| && held == fetched && fetched <= First(locks, n)
    case Checking(n, fetched, _) => n < |locks| && HoldsNext(held, fetched, locks, n)
    case Emptying(n, fetched, _) => n < |locks| && HoldsNext(held, fetched, locks, n)
    case Unpacking(n, fetched, _) => n < |locks| && HoldsNext(held, fetched, locks, n)
    case Releasing => held <= paths
  }

  /** The paths a process may still clear or write, or has written to register. */
  ghost function Working(c: Config, s: State, i: Pid): set<StorePath>
    requires Unfinished(s, i)
  {
    var locks, paths := Locks(s.procs[i]), s.procs[i].todo[0].Outputs();
    match s.procs[i].phase
    case Clearing(kept, _) => c.Scratch(paths, kept)
    case Building(kept) => c.Scratch(paths, kept)
    case Removing(left) => left
    case Taking(_, fetched, _) => fetched
    case Checking(_, fetched, _) => fetched
    case Emptying(n, fetched, _) => if n < |locks| then fetched + {locks[n]} else fetched
    case Unpacking(n, fetched, _) => if n < |locks| then fetched + {locks[n]} else fetched
    case _ => {}
  }

  /** The trees only this process has written since they were emptied. */
  ghost function Own(c: Config, s: State, i: Pid): set<StorePath>
    requires Unfinished(s, i)
  {
    var locks, paths := Locks(s.procs[i]), s.procs[i].todo[0].Outputs();
    match s.procs[i].phase
    case Clearing(kept, left) => c.Scratch(paths, kept) - left
    case Building(kept) => c.Scratch(paths, kept)
    case Taking(_, fetched, _) => fetched
    case Checking(_, fetched, _) => fetched
    case Emptying(_, fetched, _) => fetched
    case Unpacking(n, fetched, _) => if n < |locks| then fetched + {locks[n]} else fetched
    case _ => {}
  }

  /** The trees this process has unpacked. */
  ghost function Unpacked(s: State, i: Pid): set<StorePath>
    requires Unfinished(s, i)
  {
    match s.procs[i].phase
    case Taking(_, fetched, _) => fetched
    case Checking(_, fetched, _) => fetched
    case Emptying(_, fetched, _) => fetched
    case Unpacking(_, fetched, _) => fetched
    case _ => {}
  }

  /** A working path is one of the process's locked paths, or a stand-in of one. */
  ghost predicate Covered(c: Config, held: set<StorePath>, working: set<StorePath>) {
    working <= held + c.Fallbacks(held)
  }

  /** Unless some path did not arrive, all those behind are fetched or valid. */
  ghost predicate Supplied(locks: seq<StorePath>, n: nat, fetched: set<StorePath>, failed: bool,
                           valid: set<StorePath>) {
    !failed && n <= |locks| ==> First(locks, n) <= fetched + valid
  }

  /** What is planned still holds, and what is behind is done. */
  ghost predicate PlanHolds(c: Config, s: State, i: Pid)
    requires Unfinished(s, i)
  {
    var locks, paths := Locks(s.procs[i]), s.procs[i].todo[0].Outputs();
    match s.procs[i].phase
    case Clearing(kept, left) => kept == paths * s.valid && left <= c.Scratch(paths, kept)
    case Building(kept) => kept == paths * s.valid
    case Taking(n, fetched, failed) => Supplied(locks, n, fetched, failed, s.valid)
    case Checking(n, fetched, failed) => Supplied(locks, n, fetched, failed, s.valid)
    case Emptying(n, fetched, failed) => Supplied(locks, n, fetched, failed, s.valid)
    case Unpacking(n, fetched, failed) => Supplied(locks, n, fetched, failed, s.valid)
    case _ => true
  }

  ghost predicate ProcessInv(c: Config, s: State, i: Pid)
    requires Unfinished(s, i)
  {
    && (forall j :: j in s.procs[i].todo ==> j.Outputs() <= c.genuine)
    && HoldsItsLocks(s, i)
    && PlanHolds(c, s, i)
    && Covered(c, HeldBy(s, i), Working(c, s, i))
    && Working(c, s, i) !! s.valid
    && (forall p :: p in Own(c, s, i) ==> Authors(s, p) <= {i})
    && (forall p :: p in Unpacked(s, i) ==> Authors(s, p) != {})
  }

  ghost predicate Inv(c: Config, s: State) {
    && s.valid <= c.genuine
    && (forall p :: p in s.holder ==> Unfinished(s, s.holder[p]))
    && (forall i :: Unfinished(s, i) ==> ProcessInv(c, s, i))
    && (forall p :: p in s.valid ==> Single(Authors(s, p)))
  }

  ghost predicate Ordered(s: seq<StorePath>) {
    s != [] ==> (forall q :: q in s[1..] ==> s[0] <= q) && Ordered(s[1..])
  }

  lemma {:induction false} OrderedAt(s: seq<StorePath>, i: nat, j: nat)
    requires Ordered(s) && i < j < |s|
    ensures s[i] <= s[j]
  {
    if i == 0 {
      assert s[1..][j - 1] in s[1..];
    } else {
      OrderedAt(s[1..], i - 1, j - 1);
    }
  }

  lemma {:induction false} InsertCounts(p: StorePath, s: seq<StorePath>)
    ensures multiset(InsertPath(p, s)) == multiset{p} + multiset(s)
  {
    if s != [] && p > s[0] {
      InsertCounts(p, s[1..]);
      assert s == [s[0]] + s[1..];
    }
  }

  lemma {:induction false} InsertOrders(p: StorePath, s: seq<StorePath>)
    requires Ordered(s)
    ensures Ordered(InsertPath(p, s))
  {
    if s == [] || p <= s[0] {
      assert ([p] + s)[1..] == s;
      forall q | q in s
        ensures p <= q
      {
        assert q == s[0] || q in s[1..];
      }
    } else {
      InsertOrders(p, s[1..]);
      assert ([s[0]] + InsertPath(p, s[1..]))[1..] == InsertPath(p, s[1..]);
    }
  }

  lemma {:induction false} LocksOrdered(paths: seq<StorePath>)
    ensures multiset(LockOrder(paths)) == multiset(paths) && Ordered(LockOrder(paths))
  {
    if paths != [] {
      LocksOrdered(paths[1..]);
      InsertCounts(paths[0], LockOrder(paths[1..]));
      InsertOrders(paths[0], LockOrder(paths[1..]));
      assert paths == [paths[0]] + paths[1..];
    }
  }

  /** The lock order lists a job's paths in ascending order, each as often as the
      job does. */
  lemma LockOrderHolds(paths: seq<StorePath>)
    ensures multiset(LockOrder(paths)) == multiset(paths)
    ensures forall i, j :: 0 <= i < j < |paths| ==> LockOrder(paths)[i] <= LockOrder(paths)[j]
  {
    var locks := LockOrder(paths);
    LocksOrdered(paths);
    forall i, j | 0 <= i < j < |locks|
      ensures locks[i] <= locks[j]
    {
      OrderedAt(locks, i, j);
    }
  }

  lemma LocksAreOutputs(paths: seq<StorePath>)
    ensures Elements(LockOrder(paths)) == Elements(paths)
  {
    LocksOrdered(paths);
    forall p
      ensures p in Elements(LockOrder(paths)) <==> p in Elements(paths)
    {
      assert p in LockOrder(paths) <==> p in multiset(LockOrder(paths));
      assert p in paths <==> p in multiset(paths);
    }
  }

  /** A process holds only locks of its job's paths. */
  lemma HeldIsOwnPaths(c: Config, s: State, i: Pid)
    requires Unfinished(s, i) && HoldsItsLocks(s, i)
    ensures HeldBy(s, i) <= s.procs[i].todo[0].Outputs()
  {
    LocksAreOutputs(s.procs[i].todo[0].paths);
  }

  lemma OwnIsWorking(c: Config, s: State, i: Pid)
    requires Unfinished(s, i)
    ensures Own(c, s, i) <= Working(c, s, i)
  {
  }

  /** Two processes never work on one path. */
  lemma WorkingApart(c: Config, s: State, i: Pid, k: Pid)
    requires c.Sound() && i != k && Unfinished(s, i) && Unfinished(s, k)
    requires ProcessInv(c, s, i) && ProcessInv(c, s, k)
    ensures Working(c, s, i) !! Working(c, s, k)
  {
    HeldIsOwnPaths(c, s, i);
    HeldIsOwnPaths(c, s, k);
    var a, b := HeldBy(s, i), HeldBy(s, k);
    assert a !! b && a <= c.genuine && b <= c.genuine;
    assert c.Fallbacks(a) !! b && a !! c.Fallbacks(b) && c.Fallbacks(a) !! c.Fallbacks(b);
  }

  // ---- What one step touches --------------------------------------------

  /** A step changes its own process only, takes or gives up its own locks,
      registers paths it holds, and alters trees it works on. */
  ghost predicate Confined(c: Config, s: State, i: Pid, s': State)
    requires Unfinished(s, i)
  {
    && s'.procs.Keys == s.procs.Keys
    && (forall k :: k in s.procs && k != i ==> s'.procs[k] == s.procs[k])
    && (forall p :: p in s.holder && s.holder[p] != i ==> p in s'.holder && s'.holder[p] == s.holder[p])
    && (forall p :: p in s'.holder && s'.holder[p] != i ==> p in s.holder && s'.holder[p] == s.holder[p])
    && s.valid <= s'.valid <= s.valid + HeldBy(s, i)
    && (forall p :: p !in Working(c, s, i) ==> Authors(s', p) == Authors(s, p))
  }

  /** What is to show of one step: it is confined, its process's part of the
      invariant holds again, and what it registers has one author. */
  ghost predicate Keeps(c: Config, s: State, i: Pid, s': State)
    requires Unfinished(s, i)
  {
    && Confined(c, s, i, s')
    && (Unfinished(s', i) ==> ProcessInv(c, s', i))
    && (HeldBy(s', i) != {} ==> Unfinished(s', i))
    && (forall p :: p in s'.valid - s.valid ==> Single(Authors(s', p)))
  }

  lemma FirstNext(locks: seq<StorePath>, n: nat)
    requires n < |locks|
    ensures First(locks, n + 1) == First(locks, n) + {locks[n]}
  {
    assert locks[..n + 1] == locks[..n] + [locks[n]];
  }

  lemma FirstAll(paths: seq<StorePath>)
    ensures First(LockOrder(paths), |LockOrder(paths)|) == Elements(paths)
  {
    LocksAreOutputs(paths);
    assert LockOrder(paths)[..|LockOrder(paths)|] == LockOrder(paths);
  }

  // Each kind of effect is confined.

  ghost predicate SameAuthors(s: State, s': State) {
    forall p :: Authors(s', p) == Authors(s, p)
  }

  /** A process's own trees stay its own. */
  lemma OwnLater(c: Config, s: State, i: Pid, s': State)
    requires Unfinished(s, i) && Unfinished(s', i) && ProcessInv(c, s, i)
    requires SameAuthors(s, s') && Own(c, s', i) <= Own(c, s, i)
    ensures forall p :: p in Own(c, s', i) ==> Authors(s', p) <= {i}
  {
    forall p | p in Own(c, s', i)
      ensures Authors(s', p) <= {i}
    {
      assert p in Own(c, s, i);
    }
  }

  lemma BecomeConfined(c: Config, s: State, i: Pid, phase: Phase)
    requires Unfinished(s, i)
    ensures var s' := Become(s, i, phase);
            Confined(c, s, i, s') && HeldBy(s', i) == HeldBy(s, i) && SameAuthors(s, s')
  {
  }

  lemma LockConfined(c: Config, s: State, i: Pid, phase: Phase, p: StorePath)
    requires Unfinished(s, i) && p !in s.holder
    ensures var s' := Lock(Become(s, i, phase), i, p);
            Confined(c, s, i, s') && HeldBy(s', i) == HeldBy(s, i) + {p} && SameAuthors(s, s')
  {
  }

  lemma UnlockConfined(c: Config, s: State, i: Pid, phase: Phase, p: StorePath)
    requires Unfinished(s, i) && p in HeldBy(s, i)
    ensures var s' := Unlock(Become(s, i, phase), p);
            Confined(c, s, i, s') && HeldBy(s', i) == HeldBy(s, i) - {p} && SameAuthors(s, s')
  {
  }

  lemma EmptiedConfined(c: Config, s: State, i: Pid, phase: Phase, p: StorePath)
    requires Unfinished(s, i) && p in Working(c, s, i)
    ensures var s' := Emptied(Become(s, i, phase), p);
            && Confined(c, s, i, s') && HeldBy(s', i) == HeldBy(s, i)
            && forall q :: Authors(s', q) == if q == p then {} else Authors(s, q)
  {
  }

  lemma WrittenConfined(c: Config, s: State, i: Pid, p: StorePath)
    requires Unfinished(s, i) && p in Working(c, s, i)
    ensures var s' := Written(s, i, p);
            && Confined(c, s, i, s') && HeldBy(s', i) == HeldBy(s, i)
            && forall q :: Authors(s', q) == if q == p then Authors(s, q) + {i} else Authors(s, q)
  {
  }

  lemma RegisterConfined(c: Config, s: State, i: Pid, phase: Phase, paths: set<StorePath>)
    requires Unfinished(s, i) && paths <= HeldBy(s, i)
    requires forall p :: p in paths ==> Authors(s, p) == {i}
    ensures var s' := Become(s, i, phase).(valid := s.valid + paths);
            && Confined(c, s, i, s') && HeldBy(s', i) == HeldBy(s, i)
            && forall p :: p in paths ==> Single(Authors(s', p))
  {
  }

  // Each phase keeps the process's part of the invariant.

  lemma StartKeeps(c: Config, s: State, i: Pid, a: Action, s': State)
    requires Unfinished(s, i) && ProcessInv(c, s, i) && s.procs[i].phase.Start? && Step(c, s, i, a, s')
    ensures Keeps(c, s, i, s')
  {
    BecomeConfined(c, s, i, s'.procs[i].phase);
    assert First(Locks(s.procs[i]), 0) == {};
  }

  lemma AcquireKeeps(c: Config, s: State, i: Pid, a: Action, s': State)
    requires Unfinished(s, i) && ProcessInv(c, s, i) && s.procs[i].phase.Acquiring? && Step(c, s, i, a, s')
    ensures Keeps(c, s, i, s')
  {
    if a.Acquire? {
      var n, locks := s.procs[i].phase.next, Locks(s.procs[i]);
      FirstNext(locks, n);
      LockConfined(c, s, i, Acquiring(n + 1), locks[n]);
    } else {
      AllAcquired(c, s, i, a, s');
    }
  }

  lemma AllAcquired(c: Config, s: State, i: Pid, a: Action, s': State)
    requires Unfinished(s, i) && ProcessInv(c, s, i) && s.procs[i].phase.Acquiring? && Step(c, s, i, a, s')
    requires !a.Acquire?
    ensures Keeps(c, s, i, s')
  {
    FirstAll(s.procs[i].todo[0].paths);
    BecomeConfined(c, s, i, s'.procs[i].phase);
  }

  /** Nothing planned to be written is valid. */
  lemma ScratchIsFree(c: Config, paths: set<StorePath>, valid: set<StorePath>)
    requires c.Sound() && paths <= c.genuine && valid <= c.genuine
    ensures c.Scratch(paths, paths * valid) !! valid
    ensures Covered(c, paths, c.Scratch(paths, paths * valid))
  {
  }

  lemma PlanKeeps(c: Config, s: State, i: Pid, a: Action, s': State)
    requires Unfinished(s, i) && ProcessInv(c, s, i) && s.procs[i].phase.Planning? && Step(c, s, i, a, s')
    requires c.Sound() && s.valid <= c.genuine
    ensures Keeps(c, s, i, s')
  {
    var paths := s.procs[i].todo[0].Outputs();
    assert paths <= c.genuine;
    ScratchIsFree(c, paths, s.valid);
    BecomeConfined(c, s, i, s'.procs[i].phase);
    assert Own(c, s', i) == {};
  }

  lemma ClearKeeps(c: Config, s: State, i: Pid, a: Action, s': State)
    requires Unfinished(s, i) && ProcessInv(c, s, i) && s.procs[i].phase.Clearing? && Step(c, s, i, a, s')
    ensures Keeps(c, s, i, s')
  {
    if a.Clear? {
      EmptiedConfined(c, s, i, s'.procs[i].phase, a.path);
    } else {
      BecomeConfined(c, s, i, s'.procs[i].phase);
      OwnLater(c, s, i, s');
    }
  }

  lemma BuildKeeps(c: Config, s: State, i: Pid, a: Action, s': State)
    requires Unfinished(s, i) && ProcessInv(c, s, i) && s.procs[i].phase.Building? && Step(c, s, i, a, s')
    requires c.Sound() && s.valid <= c.genuine
    ensures Keeps(c, s, i, s')
  {
    var kept, outputs := s.procs[i].phase.kept, s.procs[i].todo[0].Outputs();
    match a {
      case Write(p) =>
        BuilderWrites(c, s, i, p, s');
      case Internal =>
        BecomeConfined(c, s, i, s'.procs[i].phase);
      case Register(paths) =>
        assert outputs - s.valid == outputs - kept;
        RegisterConfined(c, s, i, Removing(c.Fallbacks(kept)), paths);
      case _ => assert false;
    }
  }

  lemma BuilderWrites(c: Config, s: State, i: Pid, p: StorePath, s': State)
    requires Unfinished(s, i) && ProcessInv(c, s, i) && s.procs[i].phase.Building? && Step(c, s, i, Write(p), s')
    ensures Keeps(c, s, i, s')
  {
    WrittenConfined(c, s, i, p);
    forall q | q in Own(c, s', i)
      ensures Authors(s', q) <= {i}
    {
      assert q in Own(c, s, i);
    }
  }

  lemma RemoveKeeps(c: Config, s: State, i: Pid, a: Action, s': State)
    requires Unfinished(s, i) && ProcessInv(c, s, i) && s.procs[i].phase.Removing? && Step(c, s, i, a, s')
    ensures Keeps(c, s, i, s')
  {
    if a.Clear? {
      EmptiedConfined(c, s, i, s'.procs[i].phase, a.path);
    } else {
      BecomeConfined(c, s, i, s'.procs[i].phase);
    }
  }

  lemma TakeKeeps(c: Config, s: State, i: Pid, a: Action, s': State)
    requires Unfinished(s, i) && ProcessInv(c, s, i) && s.procs[i].phase.Taking? && Step(c, s, i, a, s')
    ensures Keeps(c, s, i, s')
  {
    if a.Acquire? {
      TurnComes(c, s, i, a, s');
    } else {
      BatchEnds(c, s, i, a, s');
    }
  }

  /** The next path's lock is taken, and its validity is to be read. */
  lemma TurnComes(c: Config, s: State, i: Pid, a: Action, s': State)
    requires Unfinished(s, i) && ProcessInv(c, s, i) && s.procs[i].phase.Taking? && Step(c, s, i, a, s')
    requires a.Acquire?
    ensures Keeps(c, s, i, s')
  {
    var n, locks := s.procs[i].phase.next, Locks(s.procs[i]);
    FirstNext(locks, n);
    LockConfined(c, s, i, Checking(n, s.procs[i].phase.fetched, s.procs[i].phase.failed), locks[n]);
    OwnLater(c, s, i, s');
  }

  lemma BatchEnds(c: Config, s: State, i: Pid, a: Action, s': State)
    requires Unfinished(s, i) && ProcessInv(c, s, i) && s.procs[i].phase.Taking? && Step(c, s, i, a, s')
    requires !a.Acquire?
    ensures Keeps(c, s, i, s')
  {
    FirstAll(s.procs[i].todo[0].paths);
    if a.Register? {
      RegisterConfined(c, s, i, Releasing, s.procs[i].phase.fetched);
    } else {
      BecomeConfined(c, s, i, Releasing);
    }
    assert Own(c, s', i) == {};
  }

  /** The path being substituted is locked, and new to what was fetched. */
  lemma CurrentPath(c: Config, s: State, i: Pid)
    requires Unfinished(s, i) && ProcessInv(c, s, i)
    requires s.procs[i].phase.Checking? || s.procs[i].phase.Emptying? || s.procs[i].phase.Unpacking?
    ensures var n, locks, fetched := s.procs[i].phase.next, Locks(s.procs[i]), s.procs[i].phase.fetched;
            && n < |locks| && locks[n] !in fetched && locks[n] in HeldBy(s, i)
            && First(locks, n + 1) == First(locks, n) + {locks[n]}
  {
    FirstNext(Locks(s.procs[i]), s.procs[i].phase.next);
  }

  /** With a path dealt with, the next one's turn comes. */
  lemma MovesOn(c: Config, s: State, i: Pid, s': State, fetched: set<StorePath>, failed: bool)
    requires Unfinished(s, i) && ProcessInv(c, s, i) && Confined(c, s, i, s') && SameAuthors(s, s')
    requires s.procs[i].phase.Checking? || s.procs[i].phase.Emptying? || s.procs[i].phase.Unpacking?
    requires s'.procs[i] == s.procs[i].(phase := Taking(s.procs[i].phase.next + 1, fetched, failed))
    requires s'.valid == s.valid && HeldBy(s', i) == fetched && fetched <= Own(c, s, i)
    requires failed || s.procs[i].phase.fetched + {Locks(s.procs[i])[s.procs[i].phase.next]} <= fetched + s.valid
    requires failed || !s.procs[i].phase.failed
    requires forall p :: p in fetched ==> Authors(s, p) != {}
    ensures Keeps(c, s, i, s')
  {
    CurrentPath(c, s, i);
    OwnIsWorking(c, s, i);
  }

  lemma CheckKeeps(c: Config, s: State, i: Pid, a: Action, s': State)
    requires Unfinished(s, i) && ProcessInv(c, s, i) && s.procs[i].phase.Checking? && Step(c, s, i, a, s')
    ensures Keeps(c, s, i, s')
  {
    CurrentPath(c, s, i);
    if a.Release? {
      GiveUpKeeps(c, s, i, a.path, s.procs[i].phase.failed, s');
    } else {
      BecomeConfined(c, s, i, s'.procs[i].phase);
      OwnLater(c, s, i, s');
    }
  }

  /** A path found valid, or not supplied, is let go. */
  lemma GiveUpKeeps(c: Config, s: State, i: Pid, p: StorePath, failed: bool, s': State)
    requires Unfinished(s, i) && ProcessInv(c, s, i)
    requires s.procs[i].phase.Checking? || s.procs[i].phase.Emptying? || s.procs[i].phase.Unpacking?
    requires s.procs[i].phase.next < |Locks(s.procs[i])| && p == Locks(s.procs[i])[s.procs[i].phase.next]
    requires failed || (p in s.valid && !s.procs[i].phase.failed)
    requires s' == Unlock(Become(s, i, Taking(s.procs[i].phase.next + 1, s.procs[i].phase.fetched, failed)), p)
    ensures Keeps(c, s, i, s')
  {
    CurrentPath(c, s, i);
    UnlockConfined(c, s, i, s'.procs[i].phase, p);
    MovesOn(c, s, i, s', s.procs[i].phase.fetched, failed);
  }

  lemma EmptyKeeps(c: Config, s: State, i: Pid, a: Action, s': State)
    requires Unfinished(s, i) && ProcessInv(c, s, i) && s.procs[i].phase.Emptying? && Step(c, s, i, a, s')
    ensures Keeps(c, s, i, s')
  {
    CurrentPath(c, s, i);
    if a.Release? {
      GiveUpKeeps(c, s, i, a.path, true, s');
    } else {
      EmptiedConfined(c, s, i, s'.procs[i].phase, a.path);
      forall q | q in Own(c, s', i)
        ensures Authors(s', q) <= {i}
      {
        assert q == a.path || q in Own(c, s, i);
      }
    }
  }

  lemma UnpackKeeps(c: Config, s: State, i: Pid, a: Action, s': State)
    requires Unfinished(s, i) && ProcessInv(c, s, i) && s.procs[i].phase.Unpacking? && Step(c, s, i, a, s')
    ensures Keeps(c, s, i, s')
  {
    if a.Write? || a.Clear? {
      RewriteKeeps(c, s, i, a, s');
    } else if a.Release? {
      GiveUpKeeps(c, s, i, a.path, true, s');
    } else {
      BecomeConfined(c, s, i, s'.procs[i].phase);
      MovesOn(c, s, i, s', s'.procs[i].phase.fetched, s'.procs[i].phase.failed);
    }
  }

  lemma RewriteKeeps(c: Config, s: State, i: Pid, a: Action, s': State)
    requires Unfinished(s, i) && ProcessInv(c, s, i) && s.procs[i].phase.Unpacking? && Step(c, s, i, a, s')
    requires a.Write? || a.Clear?
    ensures Keeps(c, s, i, s')
  {
    CurrentPath(c, s, i);
    if a.Write? {
      WrittenConfined(c, s, i, a.path);
    } else {
      assert Become(s, i, s.procs[i].phase) == s;
      EmptiedConfined(c, s, i, s.procs[i].phase, a.path);
    }
    UnpackOwn(c, s, i, s');
  }

  lemma UnpackOwn(c: Config, s: State, i: Pid, s': State)
    requires Unfinished(s, i) && Unfinished(s', i) && ProcessInv(c, s, i) && Own(c, s', i) == Own(c, s, i)
    requires forall q :: Authors(s', q) <= Authors(s, q) + {i}
    ensures forall q :: q in Own(c, s', i) ==> Authors(s', q) <= {i}
  {
    forall q | q in Own(c, s', i)
      ensures Authors(s', q) <= {i}
    {
      assert q in Own(c, s, i);
    }
  }

  lemma ReleaseKeeps(c: Config, s: State, i: Pid, a: Action, s': State)
    requires Unfinished(s, i) && ProcessInv(c, s, i) && s.procs[i].phase.Releasing? && Step(c, s, i, a, s')
    ensures Keeps(c, s, i, s')
  {
    if a.Release? {
      assert Become(s, i, Releasing) == s;
      UnlockConfined(c, s, i, Releasing, a.path);
    } else {
      assert HeldBy(s', i) == {};
    }
  }

  lemma StepKeeps(c: Config, s: State, i: Pid, a: Action, s': State)
    requires c.Sound() && Inv(c, s) && Unfinished(s, i) && Step(c, s, i, a, s')
    ensures Keeps(c, s, i, s')
  {
    assert ProcessInv(c, s, i);
    match s.procs[i].phase
    case Start => StartKeeps(c, s, i, a, s');
    case Acquiring(_) => AcquireKeeps(c, s, i, a, s');
    case Planning => PlanKeeps(c, s, i, a, s');
    case Clearing(_, _) => ClearKeeps(c, s, i, a, s');
    case Building(_) => BuildKeeps(c, s, i, a, s');
    case Removing(_) => RemoveKeeps(c, s, i, a, s');
    case Taking(_, _, _) => TakeKeeps(c, s, i, a, s');
    case Checking(_, _, _) => CheckKeeps(c, s, i, a, s');
    case Emptying(_, _, _) => EmptyKeeps(c, s, i, a, s');
    case Unpacking(_, _, _) => UnpackKeeps(c, s, i, a, s');
    case Releasing => ReleaseKeeps(c, s, i, a, s');
  }

  // ---- The other processes ----------------------------------------------

  lemma OtherKeeps(c: Config, s: State, i: Pid, s': State, k: Pid)
    requires c.Sound() && s'.valid <= c.genuine && k != i
    requires Unfinished(s, i) && ProcessInv(c, s, i) && Confined(c, s, i, s')
    requires Unfinished(s, k) && ProcessInv(c, s, k)
    ensures Unfinished(s', k) && ProcessInv(c, s', k)
  {
    assert HeldBy(s', k) == HeldBy(s, k);
    HeldIsOwnPaths(c, s, k);
    assert HeldBy(s, k) !! HeldBy(s, i);
    assert HeldBy(s, k) !! s'.valid - s.valid;
    OtherPlanHolds(c, s, i, s', k);
    WorkingApart(c, s, i, k);
    OwnIsWorking(c, s, k);
    forall p | p in Own(c, s', k)
      ensures Authors(s', p) <= {k}
    {
      assert p in Own(c, s, k);
    }
    StandInsStayFree(c, HeldBy(s, k), Working(c, s, k), s.valid, s'.valid);
  }

  lemma OtherPlanHolds(c: Config, s: State, i: Pid, s': State, k: Pid)
    requires k != i && Unfinished(s, i) && Confined(c, s, i, s')
    requires Unfinished(s, k) && ProcessInv(c, s, k) && HeldBy(s, k) !! s'.valid - s.valid
    ensures Unfinished(s', k) && PlanHolds(c, s', k)
  {
  }

  lemma StandInsStayFree(c: Config, held: set<StorePath>, working: set<StorePath>, valid: set<StorePath>,
                         valid': set<StorePath>)
    requires c.Sound() && held <= c.genuine && valid' <= c.genuine
    requires Covered(c, held, working) && working !! valid && held !! valid' - valid
    ensures working !! valid'
  {
  }

  lemma StepKeepsInv(c: Config, s: State, l: Label, s': State)
    requires c.Sound() && Inv(c, s) && Next(c, s, l, s')
    ensures Inv(c, s')
    ensures s.valid <= s'.valid && forall p :: p in s.valid ==> Authors(s', p) == Authors(s, p)
  {
    var i := l.pid;
    StepKeeps(c, s, i, l.action, s');
    assert ProcessInv(c, s, i);
    HeldIsOwnPaths(c, s, i);
    forall k | Unfinished(s', k)
      ensures ProcessInv(c, s', k)
    {
      if k != i {
        assert Unfinished(s, k);
        OtherKeeps(c, s, i, s', k);
      }
    }
    forall p | p in s'.holder
      ensures Unfinished(s', s'.holder[p])
    {
      if s'.holder[p] != i {
        assert Unfinished(s, s.holder[p]);
      } else {
        assert p in HeldBy(s', i);
      }
    }
  }

  lemma {:induction false} RunKeepsInv(c: Config, states: seq<State>, labels: seq<Label>, k: nat)
    requires c.Sound() && Run(c, states, labels) && k < |states|
    ensures Inv(c, states[k])
  {
    if k == 0 {
      InitInv(c, states[0]);
    } else {
      RunKeepsInv(c, states, labels, k - 1);
      assert StepAt(c, states, labels, k - 1);
      StepKeepsInv(c, states[k - 1], labels[k - 1], states[k]);
    }
  }

  lemma InitInv(c: Config, s: State)
    requires Init(c, s)
    ensures Inv(c, s)
  {
    forall i | Unfinished(s, i)
      ensures ProcessInv(c, s, i)
    {
      assert HeldBy(s, i) == {};
    }
  }

  // ---- What the locks promise -------------------------------------------

  /** A step clears or writes only trees of paths that are not valid, and no
      other process is working on. */
  lemma TouchIsSafe(c: Config, s: State, l: Label, s': State, p: StorePath)
    requires c.Sound() && Inv(c, s) && Next(c, s, l, s')
    requires l.action == Clear(p) || l.action == Write(p)
    ensures p !in s.valid
    ensures forall k :: k != l.pid && Unfinished(s, k) ==> p !in Working(c, s, k)
  {
    assert ProcessInv(c, s, l.pid);
    assert p in Working(c, s, l.pid);
    forall k | k != l.pid && Unfinished(s, k)
      ensures p !in Working(c, s, k)
    {
      assert ProcessInv(c, s, k);
      WorkingApart(c, s, l.pid, k);
    }
  }

  lemma {:induction false} ValidStays(c: Config, states: seq<State>, labels: seq<Label>, j: nat, k: nat, p: StorePath)
    requires c.Sound() && Run(c, states, labels) && j <= k < |states| && p in states[j].valid
    ensures p in states[k].valid && Authors(states[k], p) == Authors(states[j], p)
    decreases k
  {
    if j < k {
      ValidStays(c, states, labels, j, k - 1, p);
      RunStep(c, states, labels, k - 1);
    }
  }

  lemma RunStep(c: Config, states: seq<State>, labels: seq<Label>, k: nat)
    requires c.Sound() && Run(c, states, labels) && k < |labels|
    ensures states[k].valid <= states[k + 1].valid
    ensures forall p :: p in states[k].valid ==> Authors(states[k + 1], p) == Authors(states[k], p)
  {
    RunKeepsInv(c, states, labels, k);
    assert StepAt(c, states, labels, k);
    StepKeepsInv(c, states[k], labels[k], states[k + 1]);
  }

  /** In every interleaving, a path once valid is never cleared or written again,
      and its tree is the work of the one process that wrote it. */
  lemma RegisteredIsUntouched(c: Config, states: seq<State>, labels: seq<Label>, j: nat, k: nat, p: StorePath)
    requires c.Sound() && Run(c, states, labels) && j <= k < |labels| && p in states[j].valid
    ensures labels[k].action != Clear(p) && labels[k].action != Write(p)
    ensures p in states[k + 1].valid && Authors(states[k + 1], p) == Authors(states[j], p)
    ensures Single(Authors(states[j], p))
  {
    RunKeepsInv(c, states, labels, j);
    RunKeepsInv(c, states, labels, k);
    ValidStays(c, states, labels, j, k, p);
    ValidStays(c, states, labels, j, k + 1, p);
    if labels[k].action == Clear(p) || labels[k].action == Write(p) {
      assert StepAt(c, states, labels, k);
      TouchIsSafe(c, states[k], labels[k], states[k + 1], p);
    }
  }
}
