/** When processes taking output locks can wait for ever: exactly when a job lists a
    path twice. */
module LockDeadlock {
  import opened Basics
  import opened OutputLocks
  import opened LockSafety

  // ---- Who waits --------------------------------------------------------

  /** The lock a process is waiting for, when it is at one that is taken. */
  ghost predicate Waits(s: State, i: Pid, p: StorePath) {
    && Unfinished(s, i)
    && p in s.holder
    && (s.procs[i].phase.Acquiring? || s.procs[i].phase.Taking?)
    && s.procs[i].phase.next < |Locks(s.procs[i])|
    && p == Locks(s.procs[i])[s.procs[i].phase.next]
  }

  ghost predicate CanStep(c: Config, s: State, i: Pid) {
    Unfinished(s, i) && exists a, s' :: Step(c, s, i, a, s')
  }

  /** A process that waits for no lock can step. */
  lemma OnlyLocksBlock(c: Config, s: State, i: Pid)
    requires Unfinished(s, i) && ProcessInv(c, s, i) && forall p :: !Waits(s, i, p)
    ensures CanStep(c, s, i)
  {
    var me, locks := s.procs[i], Locks(s.procs[i]);
    match me.phase
    case Start =>
      assert Step(c, s, i, Internal, Become(s, i, if me.todo[0].BuildJob? then Acquiring(0) else Taking(0, {}, false)));
    case Acquiring(n) =>
      if n < |locks| {
        assert !Waits(s, i, locks[n]);
        assert Step(c, s, i, Acquire(locks[n]), Lock(Become(s, i, Acquiring(n + 1)), i, locks[n]));
      } else {
        var outputs := me.todo[0].Outputs();
        assert Step(c, s, i, Internal,
               Become(s, i, if outputs != {} && outputs <= s.valid then Releasing else Planning));
      }
    case Planning =>
      assert Step(c, s, i, Internal, Become(s, i, Releasing));
    case Clearing(kept, left) =>
      if left == {} {
        assert Step(c, s, i, Internal, Become(s, i, Building(kept)));
      } else {
        var p :| p in left;
        assert Step(c, s, i, Clear(p), Emptied(Become(s, i, Clearing(kept, left - {p})), p));
      }
    case Building(kept) =>
      assert Step(c, s, i, Internal, Become(s, i, Removing(c.Scratch(me.todo[0].Outputs(), kept))));
    case Removing(left) =>
      if left == {} {
        assert Step(c, s, i, Internal, Become(s, i, Releasing));
      } else {
        var p :| p in left;
        assert Step(c, s, i, Clear(p), Emptied(Become(s, i, Removing(left - {p})), p));
      }
    case Taking(n, fetched, failed) =>
      if n < |locks| {
        assert !Waits(s, i, locks[n]);
        assert Step(c, s, i, Acquire(locks[n]), Lock(Become(s, i, Checking(n, fetched, failed)), i, locks[n]));
      } else {
        assert Step(c, s, i, Internal, Become(s, i, Releasing));
      }
    case Checking(n, fetched, failed) =>
      if locks[n] in s.valid {
        assert Step(c, s, i, Release(locks[n]), Unlock(Become(s, i, Taking(n + 1, fetched, failed)), locks[n]));
      } else {
        assert Step(c, s, i, Internal, Become(s, i, Emptying(n, fetched, failed)));
      }
    case Emptying(n, fetched, failed) =>
      assert Step(c, s, i, Release(locks[n]), Unlock(Become(s, i, Taking(n + 1, fetched, true)), locks[n]));
    case Unpacking(n, fetched, failed) =>
      assert Step(c, s, i, Release(locks[n]), Unlock(Become(s, i, Taking(n + 1, fetched, true)), locks[n]));
    case Releasing =>
      if HeldBy(s, i) == {} {
        assert Step(c, s, i, Internal, s.(procs := s.procs[i := Process(me.todo[1..], Start)]));
      } else {
        var p :| p in HeldBy(s, i);
        assert Step(c, s, i, Release(p), Unlock(s, p));
      }
  }

  // ---- Waiting ends, but for oneself ------------------------------------

  /** A process waits for a lock it holds. */
  ghost predicate WaitsForItself(s: State, i: Pid) {
    exists p :: Waits(s, i, p) && s.holder[p] == i
  }

  /** Whatever a waiting process holds comes no later than what it waits for. */
  lemma WaitsForLater(c: Config, s: State, i: Pid, p: StorePath, q: StorePath)
    requires Waits(s, i, p) && ProcessInv(c, s, i) && q in HeldBy(s, i)
    ensures q <= p
    ensures q == p ==> !NoDuplicates(s.procs[i].todo[0].paths)
  {
    var locks, n := Locks(s.procs[i]), s.procs[i].phase.next;
    assert q in First(locks, n);
    var k :| 0 <= k < n && locks[k] == q;
    LocksOrdered(s.procs[i].todo[0].paths);
    OrderedAt(locks, k, n);
    if q == p {
      RepeatsInOrder(s.procs[i].todo[0].paths);
    }
  }

  /** A job repeats a path exactly when its lock order does. */
  lemma RepeatsInOrder(paths: seq<StorePath>)
    ensures NoDuplicates(paths) <==> NoDuplicates(LockOrder(paths))
  {
    LocksOrdered(paths);
    CountsOnceExactly(paths);
    CountsOnceExactly(LockOrder(paths));
  }

  /** Following holders from lock to lock, each greater than the last, reaches a
      process that waits for none, or for itself. */
  lemma {:induction false} SomeHolderSteps(c: Config, s: State, i: Pid, p: StorePath, bound: nat) returns (k: Pid)
    requires Inv(c, s) && Waits(s, i, p)
    requires forall q :: q in s.holder ==> q < bound
    ensures CanStep(c, s, k) || WaitsForItself(s, k)
    decreases bound - p
  {
    var h := s.holder[p];
    assert Unfinished(s, h) && ProcessInv(c, s, h) && p in HeldBy(s, h);
    k := h;
    if q :| Waits(s, h, q) {
      WaitsForLater(c, s, h, q, p);
      if p < q {
        k := SomeHolderSteps(c, s, h, q, bound);
      }
    } else {
      OnlyLocksBlock(c, s, h);
    }
  }

  lemma {:induction false} BoundOf(paths: set<StorePath>) returns (bound: nat)
    ensures forall q :: q in paths ==> q < bound
  {
    if paths == {} {
      bound := 0;
    } else {
      var p :| p in paths;
      var rest := BoundOf(paths - {p});
      bound := if p < rest then rest else p + 1;
      assert forall q :: q in paths ==> q == p || q in paths - {p};
    }
  }

  /** While a process is unfinished, one can step, or one waits for itself. */
  lemma SomeStepOrSelfWait(c: Config, s: State, i: Pid) returns (k: Pid)
    requires Inv(c, s) && Unfinished(s, i)
    ensures CanStep(c, s, k) || WaitsForItself(s, k)
  {
    if p :| Waits(s, i, p) {
      var bound := BoundOf(s.holder.Keys);
      k := SomeHolderSteps(c, s, i, p, bound);
    } else {
      assert ProcessInv(c, s, i);
      OnlyLocksBlock(c, s, i);
      k := i;
    }
  }

  /** A process that waits for itself has a job that repeats a path, and no step. */
  lemma SelfWaitIsStuck(c: Config, s: State, i: Pid)
    requires Inv(c, s) && WaitsForItself(s, i)
    ensures !NoDuplicates(s.procs[i].todo[0].paths) && !CanStep(c, s, i)
  {
    var p :| Waits(s, i, p) && s.holder[p] == i;
    assert ProcessInv(c, s, i) && p in HeldBy(s, i);
    WaitsForLater(c, s, i, p, p);
  }

  /** Nobody else ends that wait. */
  lemma SelfWaitStays(c: Config, s: State, l: Label, s': State, i: Pid)
    requires c.Sound() && Inv(c, s) && Next(c, s, l, s') && WaitsForItself(s, i)
    ensures WaitsForItself(s', i)
  {
    var p :| Waits(s, i, p) && s.holder[p] == i;
    SelfWaitIsStuck(c, s, i);
    assert l.pid == i ==> CanStep(c, s, i);
    StepKeeps(c, s, l.pid, l.action, s');
    assert Waits(s', i, p);
  }

  /** Once a process waits for a lock it holds, it does so for ever. */
  lemma {:induction false} SelfWaitIsForEver(c: Config, states: seq<State>, labels: seq<Label>, j: nat, k: nat, i: Pid)
    requires c.Sound() && Run(c, states, labels) && j <= k < |states| && WaitsForItself(states[j], i)
    ensures WaitsForItself(states[k], i)
    decreases k
  {
    if j < k {
      SelfWaitIsForEver(c, states, labels, j, k - 1, i);
      RunKeepsInv(c, states, labels, k - 1);
      assert StepAt(c, states, labels, k - 1);
      SelfWaitStays(c, states[k - 1], labels[k - 1], states[k], i);
    }
  }

  // ---- Without repeats nothing deadlocks --------------------------------

  ghost predicate JobsAmong(s: State, jobs: set<Job>) {
    forall i, j :: i in s.procs && j in s.procs[i].todo ==> j in jobs
  }

  lemma {:induction false} JobsStay(c: Config, states: seq<State>, labels: seq<Label>, jobs: set<Job>, k: nat)
    requires Run(c, states, labels) && JobsAmong(states[0], jobs) && k < |states|
    ensures JobsAmong(states[k], jobs)
  {
    if k > 0 {
      JobsStay(c, states, labels, jobs, k - 1);
      assert StepAt(c, states, labels, k - 1);
      JobsAfter(c, states[k - 1], labels[k - 1], states[k], jobs);
    }
  }

  /** A step takes at most the first job off its process's list. */
  lemma JobsAfter(c: Config, s: State, l: Label, s': State, jobs: set<Job>)
    requires Next(c, s, l, s') && JobsAmong(s, jobs)
    ensures JobsAmong(s', jobs)
  {
    OneMoves(c, s, l, s');
    var me := s'.procs[l.pid];
    forall j | j in me.todo
      ensures j in jobs
    {
      assert j in s.procs[l.pid].todo;
    }
  }

  lemma OneMoves(c: Config, s: State, l: Label, s': State)
    requires Next(c, s, l, s')
    ensures l.pid in s'.procs && s'.procs == s.procs[l.pid := s'.procs[l.pid]]
    ensures s'.procs[l.pid].todo == s.procs[l.pid].todo || s'.procs[l.pid].todo == s.procs[l.pid].todo[1..]
  {
    match s.procs[l.pid].phase
    case Start =>
    case Acquiring(_) =>
    case Planning =>
    case Clearing(_, _) =>
    case Building(_) =>
    case Removing(_) =>
    case Taking(_, _, _) =>
    case Checking(_, _, _) =>
    case Emptying(_, _, _) =>
    case Unpacking(_, _, _) => UnpackMoves(s, l, s');
    case Releasing =>
  }

  lemma UnpackMoves(s: State, l: Label, s': State)
    requires Unfinished(s, l.pid) && s.procs[l.pid].phase.Unpacking?
    requires var phase := s.procs[l.pid].phase;
             UnpackStep(s, l.pid, phase.next, phase.fetched, phase.failed, l.action, s')
    ensures l.pid in s'.procs && s'.procs == s.procs[l.pid := s'.procs[l.pid]]
    ensures s'.procs[l.pid].todo == s.procs[l.pid].todo
  {
    assert s.procs == s.procs[l.pid := s.procs[l.pid]];
  }

  /** Some process is unfinished and none can step. */
  ghost predicate Deadlocked(c: Config, s: State) {
    (exists i :: Unfinished(s, i)) && forall i :: !CanStep(c, s, i)
  }

  /** In every reachable state with an unfinished process, some process can step,
      unless some job repeats a path. */
  lemma NeverDeadlocked(c: Config, states: seq<State>, labels: seq<Label>, jobs: set<Job>, k: nat)
    requires c.Sound() && Run(c, states, labels) && JobsAmong(states[0], jobs) && k < |states|
    requires forall j :: j in jobs ==> NoDuplicates(j.paths)
    ensures !Deadlocked(c, states[k])
  {
    var s := states[k];
    RunKeepsInv(c, states, labels, k);
    if i :| Unfinished(s, i) {
      var j := SomeStepOrSelfWait(c, s, i);
      if WaitsForItself(s, j) {
        SelfWaitIsStuck(c, s, j);
        JobsStay(c, states, labels, jobs, k);
      }
    }
  }

  // ---- A repeat does deadlock -------------------------------------------

  /** A run over some jobs comes to a state. */
  ghost predicate Comes(c: Config, jobs: set<Job>, s: State) {
    exists states, labels :: Run(c, states, labels) && JobsAmong(states[0], jobs) && states[|labels|] == s
  }

  lemma ComesNext(c: Config, jobs: set<Job>, s: State, l: Label, s': State)
    requires Comes(c, jobs, s) && Next(c, s, l, s')
    ensures Comes(c, jobs, s')
  {
    var states, labels :| Run(c, states, labels) && JobsAmong(states[0], jobs) && states[|labels|] == s;
    var states', labels' := states + [s'], labels + [l];
    forall k | 0 <= k < |labels'|
      ensures StepAt(c, states', labels', k)
    {
      if k < |labels| {
        assert StepAt(c, states, labels, k);
      }
    }
    assert Run(c, states', labels') && states'[|labels'|] == s';
  }

  /** One process at a job, holding some locks, with trees of its own under some. */
  function Alone(job: Job, phase: Phase, held: set<StorePath>, written: map<StorePath, set<Pid>>): State {
    State(map[0 := Process([job], phase)], map p | p in held :: 0, {}, written)
  }

  // What steps make of such a state.

  lemma AloneBecomes(job: Job, phase: Phase, held: set<StorePath>, written: map<StorePath, set<Pid>>, phase': Phase)
    ensures Become(Alone(job, phase, held, written), 0, phase') == Alone(job, phase', held, written)
  {
  }

  lemma AloneLocks(job: Job, phase: Phase, held: set<StorePath>, written: map<StorePath, set<Pid>>, p: StorePath)
    ensures Lock(Alone(job, phase, held, written), 0, p) == Alone(job, phase, held + {p}, written)
  {
  }

  lemma AloneWrites(job: Job, phase: Phase, held: set<StorePath>, written: map<StorePath, set<Pid>>, p: StorePath)
    requires p in written && written[p] == {}
    ensures Written(Alone(job, phase, held, written), 0, p) == Alone(job, phase, held, written[p := {0}])
  {
    assert written[p] + {0} == {0};
  }

  lemma StartComes(c: Config, job: Job)
    requires job.Outputs() <= c.genuine
    ensures Comes(c, {job}, Alone(job, if job.BuildJob? then Acquiring(0) else Taking(0, {}, false), {}, map[]))
  {
    var s0 := Alone(job, Start, {}, map[]);
    var s1 := Alone(job, if job.BuildJob? then Acquiring(0) else Taking(0, {}, false), {}, map[]);
    assert Run(c, [s0], []);
    assert Comes(c, {job}, s0) by {
      var states, labels := [s0], [];
      assert Run(c, states, labels) && JobsAmong(states[0], {job}) && states[|labels|] == s0;
    }
    assert Next(c, s0, Label(0, Internal), s1);
    ComesNext(c, {job}, s0, Label(0, Internal), s1);
  }

  /** A build alone takes its locks up to the first repeated one. */
  lemma {:induction false} BuildComes(c: Config, job: Job, n: nat)
    requires job.BuildJob? && job.Outputs() <= c.genuine && n <= |job.paths|
    requires NoDuplicates(LockOrder(job.paths)[..n])
    ensures Comes(c, {job}, Alone(job, Acquiring(n), First(LockOrder(job.paths), n), map[]))
  {
    var locks := LockOrder(job.paths);
    if n == 0 {
      StartComes(c, job);
      assert First(locks, 0) == {};
    } else {
      var m := n - 1;
      NextIsNew(locks, m);
      BuildComes(c, job, m);
      var s := Alone(job, Acquiring(m), First(locks, m), map[]);
      AloneBecomes(job, Acquiring(m), First(locks, m), map[], Acquiring(n));
      AloneLocks(job, Acquiring(n), First(locks, m), map[], locks[m]);
      ComesNext(c, {job}, s, Label(0, Acquire(locks[m])), Alone(job, Acquiring(n), First(locks, n), map[]));
    }
  }

  lemma NextIsNew(locks: seq<StorePath>, m: nat)
    requires m < |locks| && NoDuplicates(locks[..m + 1])
    ensures NoDuplicates(locks[..m]) && locks[m] !in First(locks, m)
    ensures First(locks, m + 1) == First(locks, m) + {locks[m]}
  {
    FirstNext(locks, m);
    var longer := locks[..m + 1];
    assert forall k :: 0 <= k < m ==> longer[k] == locks[k] && longer[k] == locks[..m][k];
    assert longer[m] == locks[m];
  }

  /** Trees that one process has written. */
  function Trees(paths: set<StorePath>): map<StorePath, set<Pid>> {
    map p | p in paths :: {0}
  }

  /** A substitution alone between two paths, with those before fetched. */
  function Between(job: Job, n: nat, had: set<StorePath>): State {
    Alone(job, Taking(n, had, false), had, Trees(had))
  }

  /** A substitution alone fetches path after path up to the first repeated one. */
  lemma {:induction false} SubstituteComes(c: Config, job: Job, n: nat)
    requires job.SubstituteJob? && job.Outputs() <= c.genuine && n <= |job.paths|
    requires NoDuplicates(LockOrder(job.paths)[..n])
    ensures Comes(c, {job}, Between(job, n, First(LockOrder(job.paths), n)))
  {
    var locks := LockOrder(job.paths);
    if n == 0 {
      StartComes(c, job);
      assert First(locks, 0) == {} && Trees({}) == map[];
    } else {
      NextIsNew(locks, n - 1);
      SubstituteComes(c, job, n - 1);
      FetchComes(c, job, n - 1, First(locks, n - 1));
    }
  }

  /** Lock, check, empty, unpack, and on to the next. */
  lemma FetchComes(c: Config, job: Job, m: nat, had: set<StorePath>)
    requires job.SubstituteJob? && m < |job.paths| && LockOrder(job.paths)[m] !in had
    requires Comes(c, {job}, Between(job, m, had))
    ensures Comes(c, {job}, Between(job, m + 1, had + {LockOrder(job.paths)[m]}))
  {
    LockComes(c, job, m, had);
    ClearComes(c, job, m, had);
    UnpackComes(c, job, m, had);
  }

  lemma LockComes(c: Config, job: Job, m: nat, had: set<StorePath>)
    requires job.SubstituteJob? && m < |job.paths| && LockOrder(job.paths)[m] !in had
    requires Comes(c, {job}, Between(job, m, had))
    ensures Comes(c, {job}, Alone(job, Checking(m, had, false), had + {LockOrder(job.paths)[m]}, Trees(had)))
  {
    var p, s := LockOrder(job.paths)[m], Between(job, m, had);
    AloneBecomes(job, Taking(m, had, false), had, Trees(had), Checking(m, had, false));
    AloneLocks(job, Checking(m, had, false), had, Trees(had), p);
    ComesNext(c, {job}, s, Label(0, Acquire(p)), Alone(job, Checking(m, had, false), had + {p}, Trees(had)));
  }

  lemma ClearComes(c: Config, job: Job, m: nat, had: set<StorePath>)
    requires job.SubstituteJob? && m < |job.paths|
    requires Comes(c, {job}, Alone(job, Checking(m, had, false), had + {LockOrder(job.paths)[m]}, Trees(had)))
    ensures var p := LockOrder(job.paths)[m];
            Comes(c, {job}, Alone(job, Unpacking(m, had, false), had + {p}, Trees(had)[p := {}]))
  {
    var p := LockOrder(job.paths)[m];
    var s := Alone(job, Checking(m, had, false), had + {p}, Trees(had));
    var s1 := Alone(job, Emptying(m, had, false), had + {p}, Trees(had));
    AloneBecomes(job, Checking(m, had, false), had + {p}, Trees(had), Emptying(m, had, false));
    ComesNext(c, {job}, s, Label(0, Internal), s1);
    AloneBecomes(job, Emptying(m, had, false), had + {p}, Trees(had), Unpacking(m, had, false));
    ComesNext(c, {job}, s1, Label(0, Clear(p)), Alone(job, Unpacking(m, had, false), had + {p}, Trees(had)[p := {}]));
  }

  lemma UnpackComes(c: Config, job: Job, m: nat, had: set<StorePath>)
    requires job.SubstituteJob? && m < |job.paths|
    requires var p := LockOrder(job.paths)[m];
             Comes(c, {job}, Alone(job, Unpacking(m, had, false), had + {p}, Trees(had)[p := {}]))
    ensures Comes(c, {job}, Between(job, m + 1, had + {LockOrder(job.paths)[m]}))
  {
    var p := LockOrder(job.paths)[m];
    var s := Alone(job, Unpacking(m, had, false), had + {p}, Trees(had)[p := {}]);
    var s1 := Alone(job, Unpacking(m, had, false), had + {p}, Trees(had + {p}));
    assert Trees(had)[p := {}][p := {0}] == Trees(had + {p});
    AloneWrites(job, Unpacking(m, had, false), had + {p}, Trees(had)[p := {}], p);
    ComesNext(c, {job}, s, Label(0, Write(p)), s1);
    AloneBecomes(job, Unpacking(m, had, false), had + {p}, Trees(had + {p}), Taking(m + 1, had + {p}, false));
    ComesNext(c, {job}, s1, Label(0, Internal), Between(job, m + 1, had + {p}));
  }

  /** Where a list first repeats an item. */
  lemma {:induction false} FirstRepeat(s: seq<StorePath>) returns (n: nat)
    requires !NoDuplicates(s)
    ensures n < |s| && NoDuplicates(s[..n]) && s[n] in s[..n]
  {
    var last := |s| - 1;
    if NoDuplicates(s[..last]) {
      n := last;
      assert s == s[..last] + [s[last]];
      if s[last] !in s[..last] {
        AppendDistinct(s[..last], [s[last]]);
      }
    } else {
      n := FirstRepeat(s[..last]);
      assert s[..last][..n] == s[..n];
    }
  }

  /** A job that repeats a path, run alone in an empty store, can come to wait for
      itself. */
  lemma RepeatComesToWait(c: Config, job: Job) returns (s: State)
    requires job.Outputs() <= c.genuine && !NoDuplicates(job.paths)
    ensures Comes(c, {job}, s) && WaitsForItself(s, 0) && s.procs.Keys == {0}
  {
    var locks := LockOrder(job.paths);
    RepeatsInOrder(job.paths);
    var n := FirstRepeat(locks);
    assert locks[n] in First(locks, n);
    if job.BuildJob? {
      BuildComes(c, job, n);
      s := Alone(job, Acquiring(n), First(locks, n), map[]);
    } else {
      SubstituteComes(c, job, n);
      s := Between(job, n, First(locks, n));
    }
    assert Waits(s, 0, locks[n]) && s.holder[locks[n]] == 0;
  }

  ghost predicate CanDeadlock(c: Config, jobs: set<Job>) {
    exists s :: Comes(c, jobs, s) && Deadlocked(c, s)
  }

  /** Processes at some jobs can deadlock exactly when one of the jobs repeats a path. */
  lemma DeadlockExactly(c: Config, jobs: set<Job>)
    requires c.Sound() && forall j :: j in jobs ==> j.Outputs() <= c.genuine
    ensures CanDeadlock(c, jobs) <==> exists j :: j in jobs && !NoDuplicates(j.paths)
  {
    if forall j :: j in jobs ==> NoDuplicates(j.paths) {
      forall s | Comes(c, jobs, s)
        ensures !Deadlocked(c, s)
      {
        var states, labels :| Run(c, states, labels) && JobsAmong(states[0], jobs) && states[|labels|] == s;
        NeverDeadlocked(c, states, labels, jobs, |labels|);
      }
    } else {
      var j :| j in jobs && !NoDuplicates(j.paths);
      var s := RepeatComesToWait(c, j);
      ComesAmong(c, {j}, jobs, s);
      AloneDeadlocks(c, {j}, s);
    }
  }

  lemma ComesAmong(c: Config, fewer: set<Job>, jobs: set<Job>, s: State)
    requires fewer <= jobs && Comes(c, fewer, s)
    ensures Comes(c, jobs, s)
  {
    var states, labels :| Run(c, states, labels) && JobsAmong(states[0], fewer) && states[|labels|] == s;
    assert JobsAmong(states[0], jobs);
  }

  lemma AloneDeadlocks(c: Config, jobs: set<Job>, s: State)
    requires c.Sound() && Comes(c, jobs, s) && WaitsForItself(s, 0) && s.procs.Keys == {0}
    ensures Deadlocked(c, s)
  {
    var states, labels :| Run(c, states, labels) && JobsAmong(states[0], jobs) && states[|labels|] == s;
    RunKeepsInv(c, states, labels, |labels|);
    SelfWaitIsStuck(c, s, 0);
    assert Unfinished(s, 0);
  }
}
