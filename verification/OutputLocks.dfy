/** The output-lock protocol (src/Nix/Builder.hs, src/Nix/Substituter.hs): any
    number of processes building and substituting in one store, interleaved one
    effect at a time.  An interrupt between effects is not modelled. */
module OutputLocks {
  import opened Basics

  type Pid = nat

  /** One derivation's build, or one batch substitution; a path may be listed twice. */
  datatype Job = BuildJob(paths: seq<StorePath>) | SubstituteJob(paths: seq<StorePath>) {
    function Outputs(): set<StorePath> {
      Elements(paths)
    }
  }

  /** Where a process is in its current job.

      A build takes every output lock (`Acquiring`), reads validity under them
      (`Planning`), empties where the builder is to write (`Clearing`), builds,
      and removes what must not stay (`Removing`).  `kept` is what was valid when
      the build was planned.

      A substitution takes the lock of one path at a time (`Taking`), reads its
      validity under it (`Checking`), and unpacks; `fetched` is what it unpacked
      so far, its locks still held, and `failed` whether some path did not arrive. */
  datatype Phase =
    | Start
    | Acquiring(next: nat)
    | Planning
    | Clearing(kept: set<StorePath>, left: set<StorePath>)
    | Building(kept: set<StorePath>)
    | Removing(left: set<StorePath>)
    | Taking(next: nat, fetched: set<StorePath>, failed: bool)
    | Checking(next: nat, fetched: set<StorePath>, failed: bool)
    | Emptying(next: nat, fetched: set<StorePath>, failed: bool)
    | Unpacking(next: nat, fetched: set<StorePath>, failed: bool)
    | Releasing

  datatype Process = Process(todo: seq<Job>, phase: Phase)

  /** `holder` is who holds each path's lock, `authors` who has written a path's
      tree since it was last removed. */
  datatype State = State(
    procs: map<Pid, Process>,
    holder: map<StorePath, Pid>,
    valid: set<StorePath>,
    authors: map<StorePath, set<Pid>>)

  datatype Action =
    | Internal
    | Acquire(path: StorePath)
    | Release(path: StorePath)
    | Clear(path: StorePath)
    | Write(path: StorePath)
    | Register(paths: set<StorePath>)

  /** The scratch path that stands in for a valid output.  Its hash is of a kind
      no real store path has, so it is none of the `genuine` ones and is one output's only. */
  datatype Config = Config(fallback: StorePath -> StorePath, genuine: set<StorePath>)
  {
    ghost predicate Sound() {
      && (forall p :: p in genuine ==> fallback(p) !in genuine)
      && (forall p, q :: p in genuine && q in genuine && fallback(p) == fallback(q) ==> p == q)
    }

    ghost function Fallbacks(paths: set<StorePath>): set<StorePath> {
      set p | p in paths :: fallback(p)
    }

    /** Where the builder writes: an output's own path, or the stand-in of one
        already valid. */
    ghost function Scratch(paths: set<StorePath>, kept: set<StorePath>): set<StorePath> {
      (paths - kept) + Fallbacks(kept)
    }
  }

  function InsertPath(p: StorePath, s: seq<StorePath>): (r: seq<StorePath>)
    ensures |r| == |s| + 1 && forall q :: q in r <==> q == p || q in s
  {
    if s == [] || p <= s[0] then [p] + s else [s[0]] + InsertPath(p, s[1..])
  }

  /** The order locks are taken in: sorted, a repeated path as often as it is listed. */
  function LockOrder(paths: seq<StorePath>): (r: seq<StorePath>)
    ensures |r| == |paths|
  {
    if paths == [] then [] else InsertPath(paths[0], LockOrder(paths[1..]))
  }

  function Locks(me: Process): seq<StorePath>
    requires me.todo != []
  {
    LockOrder(me.todo[0].paths)
  }

  function Become(s: State, i: Pid, phase: Phase): State
    requires i in s.procs
  {
    s.(procs := s.procs[i := s.procs[i].(phase := phase)])
  }

  function Lock(s: State, i: Pid, p: StorePath): State { s.(holder := s.holder[p := i]) }

  function Unlock(s: State, p: StorePath): State { s.(holder := s.holder - {p}) }

  function Authors(s: State, p: StorePath): set<Pid> {
    if p in s.authors then s.authors[p] else {}
  }

  function Emptied(s: State, p: StorePath): State { s.(authors := s.authors[p := {}]) }

  function Written(s: State, i: Pid, p: StorePath): State {
    s.(authors := s.authors[p := Authors(s, p) + {i}])
  }

  ghost function HeldBy(s: State, i: Pid): set<StorePath> {
    set p | p in s.holder && s.holder[p] == i
  }

  predicate Unfinished(s: State, i: Pid) {
    i in s.procs && s.procs[i].todo != []
  }

  // ---- Steps ------------------------------------------------------------

  /** One effect of a process. */
  ghost predicate Step(c: Config, s: State, i: Pid, a: Action, s': State)
    requires Unfinished(s, i)
  {
    match s.procs[i].phase
    case Start => a == Internal
      && s' == Become(s, i, if s.procs[i].todo[0].BuildJob? then Acquiring(0) else Taking(0, {}, false))
    case Acquiring(n) => AcquireStep(s, i, n, a, s')
    case Planning => PlanStep(c, s, i, a, s')
    case Clearing(kept, left) => ClearStep(s, i, kept, left, a, s')
    case Building(kept) => BuildStep(c, s, i, kept, a, s')
    case Removing(left) => RemoveStep(s, i, left, a, s')
    case Taking(n, fetched, failed) => TakeStep(s, i, n, fetched, failed, a, s')
    case Checking(n, fetched, failed) => CheckStep(s, i, n, fetched, failed, a, s')
    case Emptying(n, fetched, failed) => EmptyStep(s, i, n, fetched, failed, a, s')
    case Unpacking(n, fetched, failed) => UnpackStep(s, i, n, fetched, failed, a, s')
    case Releasing => ReleaseStep(s, i, a, s')
  }

  /** Take the next output's lock once it is free; with all of them, adopt a
      derivation found finished, else go on. */
  ghost predicate AcquireStep(s: State, i: Pid, n: nat, a: Action, s': State)
    requires Unfinished(s, i)
  {
    var locks, outputs := Locks(s.procs[i]), s.procs[i].todo[0].Outputs();
    if n < |locks| then a == Acquire(locks[n]) && locks[n] !in s.holder
      && s' == Lock(Become(s, i, Acquiring(n + 1)), i, locks[n])
    else a == Internal && s' == Become(s, i, if outputs != {} && outputs <= s.valid then Releasing else Planning)
  }

  /** Missing inputs or a bad scratch name end the build here; otherwise it is
      planned on what is valid now. */
  ghost predicate PlanStep(c: Config, s: State, i: Pid, a: Action, s': State)
    requires Unfinished(s, i)
  {
    var outputs := s.procs[i].todo[0].Outputs();
    var kept := outputs * s.valid;
    a == Internal && (s' == Become(s, i, Releasing) || s' == Become(s, i, Clearing(kept, c.Scratch(outputs, kept))))
  }

  ghost predicate ClearStep(s: State, i: Pid, kept: set<StorePath>, left: set<StorePath>, a: Action, s': State)
    requires Unfinished(s, i)
  {
    if left == {} then a == Internal && s' == Become(s, i, Building(kept))
    else a.Clear? && a.path in left && s' == Emptied(Become(s, i, Clearing(kept, left - {a.path})), a.path)
  }

  /** The builder writes where it was told; the build ends in a registration of
      what is not valid, all at once and with every output there, or in failure. */
  ghost predicate BuildStep(c: Config, s: State, i: Pid, kept: set<StorePath>, a: Action, s': State)
    requires Unfinished(s, i)
  {
    var outputs := s.procs[i].todo[0].Outputs();
    match a
    case Write(p) => p in c.Scratch(outputs, kept) && s' == Written(s, i, p)
    case Internal => s' == Become(s, i, Removing(c.Scratch(outputs, kept)))
    case Register(paths) =>
      && (forall p :: p in c.Scratch(outputs, kept) ==> Authors(s, p) != {})
      && paths == outputs - s.valid && s' == Become(s, i, Removing(c.Fallbacks(kept))).(valid := s.valid + paths)
    case _ => false
  }

  ghost predicate RemoveStep(s: State, i: Pid, left: set<StorePath>, a: Action, s': State)
    requires Unfinished(s, i)
  {
    if left == {} then a == Internal && s' == Become(s, i, Releasing)
    else a.Clear? && a.path in left && s' == Emptied(Become(s, i, Removing(left - {a.path})), a.path)
  }

  /** Take the next path's lock; after the last, register all or nothing. */
  ghost predicate TakeStep(s: State, i: Pid, n: nat, fetched: set<StorePath>, failed: bool, a: Action, s': State)
    requires Unfinished(s, i)
  {
    var locks := Locks(s.procs[i]);
    if n < |locks| then a == Acquire(locks[n]) && locks[n] !in s.holder
      && s' == Lock(Become(s, i, Checking(n, fetched, failed)), i, locks[n])
    else
      || (a == Internal && s' == Become(s, i, Releasing))
      || (!failed && a == Register(fetched) && s' == Become(s, i, Releasing).(valid := s.valid + fetched))
  }

  ghost predicate CheckStep(s: State, i: Pid, n: nat, fetched: set<StorePath>, failed: bool, a: Action, s': State)
    requires Unfinished(s, i)
  {
    var locks := Locks(s.procs[i]);
    && n < |locks|
    && if locks[n] in s.valid then a == Release(locks[n])
         && s' == Unlock(Become(s, i, Taking(n + 1, fetched, failed)), locks[n])
       else a == Internal && s' == Become(s, i, Emptying(n, fetched, failed))
  }

  /** No cache delivers, or the destination is emptied for one that may. */
  ghost predicate EmptyStep(s: State, i: Pid, n: nat, fetched: set<StorePath>, failed: bool, a: Action, s': State)
    requires Unfinished(s, i)
  {
    var locks := Locks(s.procs[i]);
    && n < |locks|
    && ((a == Clear(locks[n]) && s' == Emptied(Become(s, i, Unpacking(n, fetched, failed)), locks[n]))
        || (a == Release(locks[n]) && s' == Unlock(Become(s, i, Taking(n + 1, fetched, true)), locks[n])))
  }

  ghost predicate UnpackStep(s: State, i: Pid, n: nat, fetched: set<StorePath>, failed: bool, a: Action, s': State)
    requires Unfinished(s, i)
  {
    var locks := Locks(s.procs[i]);
    && n < |locks|
    && match a
       case Write(p) => p == locks[n] && s' == Written(s, i, p)
       case Clear(p) => p == locks[n] && s' == Emptied(s, p)
       case Internal => Authors(s, locks[n]) != {} && s' == Become(s, i, Taking(n + 1, fetched + {locks[n]}, failed))
       case Release(p) => p == locks[n] && s' == Unlock(Become(s, i, Taking(n + 1, fetched, true)), p)
       case _ => false
  }

  /** Locks go one by one; with none left the job is over. */
  ghost predicate ReleaseStep(s: State, i: Pid, a: Action, s': State)
    requires Unfinished(s, i)
  {
    if HeldBy(s, i) == {} then a == Internal && s' == s.(procs := s.procs[i := Process(s.procs[i].todo[1..], Start)])
    else a.Release? && a.path in HeldBy(s, i) && s' == Unlock(s, a.path)
  }

  /** The work of exactly one process. */
  ghost predicate Single(authors: set<Pid>) {
    exists i :: authors == {i}
  }

  /** Nobody has begun and no lock is held; a valid path's tree has one author,
      while anything may have been left at the others. */
  ghost predicate Init(c: Config, s: State) {
    && s.holder == map[] && s.valid <= c.genuine
    && (forall p :: p in s.valid ==> Single(Authors(s, p)))
    && forall i :: i in s.procs ==> s.procs[i].phase.Start? && forall j :: j in s.procs[i].todo ==>
         j.Outputs() <= c.genuine
  }

  datatype Label = Label(pid: Pid, action: Action)

  ghost predicate Next(c: Config, s: State, l: Label, s': State) {
    Unfinished(s, l.pid) && Step(c, s, l.pid, l.action, s')
  }

  /** An interleaving: the states passed through and what led to each next one. */
  ghost predicate Run(c: Config, states: seq<State>, labels: seq<Label>) {
    && |states| == |labels| + 1
    && Init(c, states[0])
    && forall k {:trigger StepAt(c, states, labels, k)} :: 0 <= k < |labels| ==> StepAt(c, states, labels, k)
  }

  ghost predicate StepAt(c: Config, states: seq<State>, labels: seq<Label>, k: nat)
    requires |states| == |labels| + 1 && k < |labels|
  {
    Next(c, states[k], labels[k], states[k + 1])
  }
}
