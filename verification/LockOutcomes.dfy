/** How builds and substitutions end under the output-lock protocol. */
module LockOutcomes {
  import opened Basics
  import opened OutputLocks
  import opened LockSafety

  // ---- Registration -----------------------------------------------------

  /** A registration leaves every path of its job valid, a build's or a
      substitution's. */
  lemma RegisterDelivers(c: Config, s: State, l: Label, s': State)
    requires c.Sound() && Inv(c, s) && Next(c, s, l, s') && l.action.Register?
    ensures s.procs[l.pid].todo[0].Outputs() <= s'.valid
  {
    var i := l.pid;
    assert ProcessInv(c, s, i);
    if s.procs[i].phase.Taking? {
      FirstAll(s.procs[i].todo[0].paths);
    }
  }

  lemma ValidGrows(c: Config, states: seq<State>, labels: seq<Label>, j: nat, k: nat)
    requires c.Sound() && Run(c, states, labels) && j <= k < |states|
    ensures states[j].valid <= states[k].valid
  {
    forall p | p in states[j].valid
      ensures p in states[k].valid
    {
      ValidStays(c, states, labels, j, k, p);
    }
  }

  /** In every interleaving, what a job registered stays valid, all its paths. */
  lemma RegisteredStaysValid(c: Config, states: seq<State>, labels: seq<Label>, k: nat, n: nat)
    requires c.Sound() && Run(c, states, labels) && k < n < |states| && labels[k].action.Register?
    ensures Unfinished(states[k], labels[k].pid)
    ensures states[k].procs[labels[k].pid].todo[0].Outputs() <= states[n].valid
  {
    RunKeepsInv(c, states, labels, k);
    ValidGrows(c, states, labels, k + 1, n);
    assert StepAt(c, states, labels, k);
    RegisterDelivers(c, states[k], labels[k], states[k + 1]);
  }

  // ---- A build from its start to its end --------------------------------

  /** A process has registered nothing from one moment to another. */
  ghost predicate Unregistered(labels: seq<Label>, i: Pid, j: nat, k: nat)
    requires j <= k <= |labels|
  {
    forall x :: j <= x < k && labels[x].pid == i ==> !labels[x].action.Register?
  }

  /** Nor has it cleared or written anything. */
  ghost predicate Quiet(labels: seq<Label>, i: Pid, j: nat, k: nat)
    requires j <= k <= |labels|
  {
    && Unregistered(labels, i, j, k)
    && forall x :: j <= x < k && labels[x].pid == i ==> !labels[x].action.Clear? && !labels[x].action.Write?
  }

  /** Of some paths only those still left have anything at them. */
  ghost predicate Cleaned(s: State, paths: set<StorePath>, left: set<StorePath>) {
    left <= paths && forall p :: p in paths - left ==> Authors(s, p) == {}
  }

  /** A build registered, at `x`, what was not yet valid of its outputs; all of them
      are valid, and their stand-ins are removed but for what is left. */
  ghost predicate RegisteredAt(c: Config, states: seq<State>, labels: seq<Label>, i: Pid, j: nat, k: nat, x: nat,
                               outputs: set<StorePath>, left: set<StorePath>)
    requires |states| == |labels| + 1 && j <= k < |states|
  {
    && j <= x < k && labels[x] == Label(i, Register(outputs - states[x].valid))
    && outputs <= states[k].valid && Cleaned(states[k], c.Fallbacks(outputs * states[x].valid), left)
  }

  /** A build registered nothing, and where its builder may have written is removed
      but for what is left: outputs not valid, and the stand-ins of those that are. */
  ghost predicate Failed(c: Config, states: seq<State>, labels: seq<Label>, i: Pid, j: nat, k: nat,
                         outputs: set<StorePath>, left: set<StorePath>)
    requires |states| == |labels| + 1 && j <= k < |states|
  {
    && Unregistered(labels, i, j, k)
    && Cleaned(states[k], c.Scratch(outputs, outputs * states[k].valid), left)
  }

  ghost predicate Registered(c: Config, states: seq<State>, labels: seq<Label>, i: Pid, j: nat, k: nat,
                             outputs: set<StorePath>, left: set<StorePath>)
    requires |states| == |labels| + 1 && j <= k < |states|
  {
    exists x :: RegisteredAt(c, states, labels, i, j, k, x, outputs, left)
  }

  /** Where a build that began at `j` stands at `k`. */
  ghost predicate Midway(c: Config, states: seq<State>, labels: seq<Label>, i: Pid, j: nat, k: nat)
    requires |states| == |labels| + 1 && j <= k < |states|
    requires Unfinished(states[k], i)
  {
    var s := states[k];
    var outputs := s.procs[i].todo[0].Outputs();
    match s.procs[i].phase
    case Start => Quiet(labels, i, j, k)
    case Acquiring(_) => Quiet(labels, i, j, k)
    case Planning => Quiet(labels, i, j, k) && (outputs == {} || !(outputs <= s.valid))
    case Clearing(_, _) => Unregistered(labels, i, j, k)
    case Building(_) => Unregistered(labels, i, j, k)
    case Removing(left) =>
      || Failed(c, states, labels, i, j, k, outputs, left)
      || Registered(c, states, labels, i, j, k, outputs, left)
    case _ => false
  }

  /** How it ended when it comes to release its locks at `k`, by where it came from. */
  ghost predicate Ended(c: Config, states: seq<State>, labels: seq<Label>, i: Pid, j: nat, k: nat,
                        outputs: set<StorePath>)
    requires |states| == |labels| + 1 && j < k < |states|
    requires Unfinished(states[k - 1], i)
  {
    match states[k - 1].procs[i].phase
    case Acquiring(_) => Quiet(labels, i, j, k) && outputs != {} && outputs <= states[k].valid
    case Planning => Quiet(labels, i, j, k) && (outputs == {} || !(outputs <= states[k].valid))
    case Removing(_) =>
      Failed(c, states, labels, i, j, k, outputs, {}) || Registered(c, states, labels, i, j, k, outputs, {})
    case _ => false
  }

  // ---- What the others leave alone --------------------------------------

  lemma LocksApart(c: Config, a: set<StorePath>, b: set<StorePath>)
    requires c.Sound() && a <= c.genuine && b <= c.genuine && a !! b
    ensures a + c.Fallbacks(a) !! b + c.Fallbacks(b)
  {
  }

  /** Nobody else alters a tree under a process's locks, or a stand-in's, or says
      such a path is valid. */
  lemma OthersLeave(c: Config, s: State, l: Label, s': State, i: Pid)
    requires c.Sound() && Inv(c, s) && Next(c, s, l, s') && l.pid != i && Unfinished(s, i)
    ensures LeftAlone(c, s, s', i)
  {
    assert ProcessInv(c, s, l.pid) && ProcessInv(c, s, i);
    StepKeeps(c, s, l.pid, l.action, s');
    ConfinedLeaves(c, s, l.pid, s', i);
  }

  ghost predicate LeftAlone(c: Config, s: State, s': State, i: Pid)
    requires Unfinished(s, i)
  {
    && i in s'.procs && s'.procs[i] == s.procs[i]
    && HeldBy(s, i) * s'.valid == HeldBy(s, i) * s.valid
    && forall p :: p in HeldBy(s, i) + c.Fallbacks(HeldBy(s, i)) ==> Authors(s', p) == Authors(s, p)
  }

  lemma ConfinedLeaves(c: Config, s: State, k: Pid, s': State, i: Pid)
    requires c.Sound() && k != i && Unfinished(s, k) && Unfinished(s, i)
    requires ProcessInv(c, s, k) && ProcessInv(c, s, i) && Confined(c, s, k, s')
    ensures LeftAlone(c, s, s', i)
  {
    HeldIsOwnPaths(c, s, i);
    HeldIsOwnPaths(c, s, k);
    var a, b := HeldBy(s, i), HeldBy(s, k);
    LocksApart(c, a, b);
  }

  // ---- One step on ------------------------------------------------------

  lemma NothingNew(labels: seq<Label>, i: Pid, j: nat, k: nat)
    requires j <= k < |labels|
    requires labels[k].pid == i ==> !labels[k].action.Register?
    ensures Unregistered(labels, i, j, k) ==> Unregistered(labels, i, j, k + 1)
    ensures Quiet(labels, i, j, k) && (labels[k].pid == i ==> !labels[k].action.Clear? && !labels[k].action.Write?) ==>
              Quiet(labels, i, j, k + 1)
  {
  }

  lemma OtherMidway(c: Config, states: seq<State>, labels: seq<Label>, i: Pid, j: nat, k: nat)
    requires c.Sound() && Run(c, states, labels) && j <= k < |labels| && labels[k].pid != i
    requires Unfinished(states[k], i) && Midway(c, states, labels, i, j, k)
    ensures Unfinished(states[k + 1], i) && states[k + 1].procs[i] == states[k].procs[i]
    ensures Midway(c, states, labels, i, j, k + 1)
  {
    RunKeepsInv(c, states, labels, k);
    assert StepAt(c, states, labels, k);
    OthersLeave(c, states[k], labels[k], states[k + 1], i);
    if states[k].procs[i].phase.Planning? || states[k].procs[i].phase.Removing? {
      HoldsAll(c, states[k], i);
    }
    LeftMidway(c, states, labels, i, j, k);
  }

  /** Past its planning a build holds the locks of all its outputs. */
  lemma HoldsAll(c: Config, s: State, i: Pid)
    requires Inv(c, s) && Unfinished(s, i) && (s.procs[i].phase.Planning? || s.procs[i].phase.Removing?)
    ensures HeldBy(s, i) == s.procs[i].todo[0].Outputs()
  {
    assert ProcessInv(c, s, i);
  }

  lemma LeftMidway(c: Config, states: seq<State>, labels: seq<Label>, i: Pid, j: nat, k: nat)
    requires |states| == |labels| + 1 && j <= k < |labels| && labels[k].pid != i
    requires Unfinished(states[k], i) && Midway(c, states, labels, i, j, k)
    requires LeftAlone(c, states[k], states[k + 1], i)
    requires states[k].procs[i].phase.Planning? || states[k].procs[i].phase.Removing? ==>
               HeldBy(states[k], i) == states[k].procs[i].todo[0].Outputs()
    ensures Unfinished(states[k + 1], i) && Midway(c, states, labels, i, j, k + 1)
  {
    var outputs := states[k].procs[i].todo[0].Outputs();
    NothingNew(labels, i, j, k);
    if outputs <= states[k + 1].valid {
      assert outputs * states[k + 1].valid == outputs;
    }
    if states[k].procs[i].phase.Removing? {
      var left := states[k].procs[i].phase.left;
      if x :| RegisteredAt(c, states, labels, i, j, k, x, outputs, left) {
        assert outputs * states[k].valid == outputs;
        assert RegisteredAt(c, states, labels, i, j, k + 1, x, outputs, left);
      }
    }
  }

  lemma RemovesOne(s: State, s': State, i: Pid, a: Action, paths: set<StorePath>, left: set<StorePath>)
    requires Unfinished(s, i) && RemoveStep(s, i, left, a, s') && Cleaned(s, paths, left)
    ensures Cleaned(s', paths, if a.Clear? then left - {a.path} else {})
  {
    forall p | p in paths && (p !in left || a == Clear(p))
      ensures Authors(s', p) == {}
    {
      assert p !in left ==> p in paths - left;
    }
  }

  /** Removing goes on, or ends with nothing left. */
  lemma RemovingOn(c: Config, states: seq<State>, labels: seq<Label>, i: Pid, j: nat, k: nat)
    requires |states| == |labels| + 1 && j <= k < |labels| && labels[k].pid == i && StepAt(c, states, labels, k)
    requires Unfinished(states[k], i) && Midway(c, states, labels, i, j, k) && states[k].procs[i].phase.Removing?
    ensures var s' := states[k + 1];
            var outputs := states[k].procs[i].todo[0].Outputs();
            var left := if s'.procs[i].phase.Removing? then s'.procs[i].phase.left else {};
            && Unfinished(s', i) && s'.procs[i].todo == states[k].procs[i].todo
            && (s'.procs[i].phase.Removing? || s'.procs[i].phase.Releasing?)
            && (Failed(c, states, labels, i, j, k + 1, outputs, left)
                || Registered(c, states, labels, i, j, k + 1, outputs, left))
  {
    var outputs, left := states[k].procs[i].todo[0].Outputs(), states[k].procs[i].phase.left;
    var left' := if labels[k].action.Clear? then left - {labels[k].action.path} else {};
    NothingNew(labels, i, j, k);
    forall paths | Cleaned(states[k], paths, left)
      ensures Cleaned(states[k + 1], paths, left')
    {
      RemovesOne(states[k], states[k + 1], i, labels[k].action, paths, left);
    }
    assert states[k + 1].valid == states[k].valid;
    if x :| RegisteredAt(c, states, labels, i, j, k, x, outputs, left) {
      assert RegisteredAt(c, states, labels, i, j, k + 1, x, outputs, left');
    }
  }

  /** The build ends: what is to be removed is where it may have written, or after a
      registration the stand-ins. */
  lemma BuildStops(c: Config, states: seq<State>, labels: seq<Label>, i: Pid, j: nat, k: nat)
    requires |states| == |labels| + 1 && j <= k < |labels| && labels[k].pid == i && StepAt(c, states, labels, k)
    requires c.Sound() && Inv(c, states[k]) && Unfinished(states[k], i) && Midway(c, states, labels, i, j, k)
    requires states[k].procs[i].phase.Building? && !labels[k].action.Write?
    ensures Unfinished(states[k + 1], i) && states[k + 1].procs[i].todo == states[k].procs[i].todo
    ensures Midway(c, states, labels, i, j, k + 1)
  {
    var s, s' := states[k], states[k + 1];
    var outputs, kept := s.procs[i].todo[0].Outputs(), s.procs[i].phase.kept;
    assert ProcessInv(c, s, i) && kept == outputs * s.valid;
    if labels[k].action.Register? {
      RegisterDelivers(c, s, labels[k], s');
      assert RegisteredAt(c, states, labels, i, j, k + 1, k, outputs, s'.procs[i].phase.left);
    } else {
      NothingNew(labels, i, j, k);
    }
  }

  /** Its own step takes a build on, or to its end. */
  lemma OwnMidway(c: Config, states: seq<State>, labels: seq<Label>, i: Pid, j: nat, k: nat)
    requires c.Sound() && Run(c, states, labels) && j <= k < |labels| && labels[k].pid == i
    requires Unfinished(states[k], i) && Midway(c, states, labels, i, j, k) && states[k].procs[i].todo[0].BuildJob?
    ensures Unfinished(states[k + 1], i) && states[k + 1].procs[i].todo == states[k].procs[i].todo
    ensures if states[k + 1].procs[i].phase.Releasing?
            then Ended(c, states, labels, i, j, k + 1, states[k].procs[i].todo[0].Outputs())
            else Midway(c, states, labels, i, j, k + 1)
  {
    var s := states[k];
    assert StepAt(c, states, labels, k);
    RunKeepsInv(c, states, labels, k);
    if s.procs[i].phase.Removing? {
      RemovingOn(c, states, labels, i, j, k);
    } else if s.procs[i].phase.Building? && !labels[k].action.Write? {
      BuildStops(c, states, labels, i, j, k);
    } else {
      NothingNew(labels, i, j, k);
    }
  }

  /** A build from the moment it starts up to where it comes to release its locks. */
  ghost predicate Build(states: seq<State>, i: Pid, j: nat, k: nat) {
    && j <= k < |states| && Unfinished(states[j], i)
    && states[j].procs[i].todo[0].BuildJob? && states[j].procs[i].phase.Start?
    && forall x {:trigger states[x]} :: j <= x < k && i in states[x].procs ==> !states[x].procs[i].phase.Releasing?
  }

  lemma {:induction false} BuildComesTo(c: Config, states: seq<State>, labels: seq<Label>, i: Pid, j: nat, k: nat)
    requires c.Sound() && Run(c, states, labels) && Build(states, i, j, k)
    ensures Unfinished(states[k], i) && states[k].procs[i].todo == states[j].procs[i].todo
    ensures if states[k].procs[i].phase.Releasing?
            then j < k && Unfinished(states[k - 1], i)
                 && Ended(c, states, labels, i, j, k, states[j].procs[i].todo[0].Outputs())
            else Midway(c, states, labels, i, j, k)
    decreases k
  {
    if j < k {
      assert Build(states, i, j, k - 1);
      BuildComesTo(c, states, labels, i, j, k - 1);
      assert !states[k - 1].procs[i].phase.Releasing?;
      if labels[k - 1].pid == i {
        OwnMidway(c, states, labels, i, j, k - 1);
      } else {
        OtherMidway(c, states, labels, i, j, k - 1);
      }
    }
  }

  /** In every interleaving a build ends in one of four ways.  It finds its outputs
      all valid; or it is not planned, having touched nothing; or it registers those
      that were not valid, so that all are, and removes the stand-ins; or it
      registers nothing and removes whatever its builder may have written. */
  lemma BuildEnds(c: Config, states: seq<State>, labels: seq<Label>, i: Pid, j: nat, k: nat)
    requires c.Sound() && Run(c, states, labels) && Build(states, i, j, k)
    requires i in states[k].procs && states[k].procs[i].phase.Releasing?
    ensures j < k && Unfinished(states[k - 1], i)
    ensures Ended(c, states, labels, i, j, k, states[j].procs[i].todo[0].Outputs())
  {
    BuildComesTo(c, states, labels, i, j, k);
  }
}
