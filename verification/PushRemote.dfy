/** Uploading a closure to a binary cache (src/Nix/Push.hs): every NAR before any
    narinfo, narinfos in the closure's order.  How each request goes is a parameter,
    and the push stops where one fails. */
module PushRemote {
  import opened Basics
  import opened Digraph
  import opened OutputOrder
  import opened PushClosure

  /** What a narinfo says of a path: its NAR object and the hashes of its references. */
  datatype NarInfo = NarInfo(nar: nat, references: set<nat>)

  /** The cache at one moment: its NAR objects, and its narinfos by path hash. */
  datatype Snapshot = Snapshot(nars: set<nat>, infos: map<nat, NarInfo>)

  /** How one upload goes: a request that is not answered may still have stored. */
  datatype Reply = Reply(stored: bool, answered: bool)

  /** How the requests of a push go, its uploads in the order of the plan. */
  datatype Network = Network(fetched: bool, nars: nat -> Reply, infos: nat -> Reply, verified: bool)

  datatype Summary = Summary(pushed: nat, skipped: nat)

  /** No announced path references one that is not. */
  ghost predicate Closed(infos: map<nat, NarInfo>) {
    forall h :: h in infos ==> infos[h].references <= infos.Keys
  }

  /** Nothing announced before is withdrawn or changed, and what is newly announced
      can be downloaded. */
  ghost predicate Extends(before: map<nat, NarInfo>, now: Snapshot) {
    && (forall h :: h in before ==> h in now.infos && now.infos[h] == before[h])
    && (forall h :: h in now.infos && h !in before ==> now.infos[h].nar in now.nars)
  }

  /** A moment extends what there was before, and is closed where what is pushed
      has an order. */
  ghost predicate Sound(ordered: bool, before: map<nat, NarInfo>, now: Snapshot) {
    Extends(before, now) && (ordered ==> Closed(now.infos))
  }

  ghost predicate AllSound(ordered: bool, before: map<nat, NarInfo>, history: seq<Snapshot>, from: nat) {
    forall i :: from <= i < |history| ==> Sound(ordered, before, history[i])
  }

  lemma AllSoundTogether(ordered: bool, before: map<nat, NarInfo>, a: seq<Snapshot>, b: seq<Snapshot>,
                         c: seq<Snapshot>)
    requires a <= b <= c && AllSound(ordered, before, b, |a|) && AllSound(ordered, before, c, |b|)
    ensures AllSound(ordered, before, c, |a|)
  {
  }

  function InfoOf(s: Store, nar: StorePath -> nat, p: StorePath): NarInfo {
    NarInfo(nar(p), if s.refs(p).Some? then Hashes(s, Elements(s.refs(p).value)) else {})
  }

  /** What has been announced once some paths have. */
  function Announced(s: Store, nar: StorePath -> nat, before: map<nat, NarInfo>,
                     ps: seq<StorePath>): map<nat, NarInfo> {
    if ps == [] then before
    else Announced(s, nar, before, ps[..|ps| - 1])[s.hash(ps[|ps| - 1]) := InfoOf(s, nar, ps[|ps| - 1])]
  }

  // ---- The plan ---------------------------------------------------------

  /** A missing path comes in the plan after the missing ones before it in the closure. */
  lemma {:induction false} MissingAt(s: Store, remote: set<nat>, closure: seq<StorePath>, i: nat) returns (k: nat)
    requires i < |PlanMissing(s, remote, closure)|
    ensures k < |closure| && closure[k] == PlanMissing(s, remote, closure)[i]
    ensures PlanMissing(s, remote, closure[..k]) == PlanMissing(s, remote, closure)[..i]
  {
    var rest := closure[1..];
    if s.hash(closure[0]) !in remote && i == 0 {
      k := 0;
    } else {
      var j := MissingAt(s, remote, rest, if s.hash(closure[0]) in remote then i else i - 1);
      k := j + 1;
      assert closure[..k][1..] == rest[..j];
    }
  }

  lemma {:induction false} PlanHolds(s: Store, remote: set<nat>, closure: seq<StorePath>, p: StorePath)
    ensures p in PlanMissing(s, remote, closure) <==> p in closure && s.hash(p) !in remote
    ensures |PlanMissing(s, remote, closure)| <= |closure|
  {
    if closure != [] {
      PlanHolds(s, remote, closure[1..], p);
    }
  }

  lemma {:induction false} AnnouncedHolds(s: Store, nar: StorePath -> nat, before: map<nat, NarInfo>,
                                          ps: seq<StorePath>, h: nat)
    ensures h in Announced(s, nar, before, ps) <==> h in before || exists p :: p in ps && s.hash(p) == h
    ensures h in Announced(s, nar, before, ps) && !(exists p :: p in ps && s.hash(p) == h) ==>
            Announced(s, nar, before, ps)[h] == before[h]
    ensures (exists p :: p in ps && s.hash(p) == h) ==>
              exists p :: p in ps && s.hash(p) == h && Announced(s, nar, before, ps)[h] == InfoOf(s, nar, p)
  {
    if ps != [] {
      var init, last := ps[..|ps| - 1], ps[|ps| - 1];
      AnnouncedHolds(s, nar, before, init, h);
      assert forall p :: p in ps <==> p == last || p in init;
    }
  }

  /** Announcing some of a plan, in order, leaves the cache closed at each path. */
  lemma {:induction false} AnnouncedIsClosed(s: Store, nar: StorePath -> nat, before: map<nat, NarInfo>,
                                             roots: seq<StorePath>, i: nat)
    requires s.Valid() && s.Distinct() && forall p :: p in roots ==> p in s.paths
    requires Closed(before) && ComputeClosure(s, roots).Some? && CycleFree(s, Reachable(s, roots))
    requires i <= |PlanMissing(s, before.Keys, ComputeClosure(s, roots).value)|
    ensures Closed(Announced(s, nar, before, PlanMissing(s, before.Keys, ComputeClosure(s, roots).value)[..i]))
  {
    var closure := ComputeClosure(s, roots).value;
    var missing := PlanMissing(s, before.Keys, closure);
    if i > 0 {
      AnnouncedIsClosed(s, nar, before, roots, i - 1);
      var p, earlier := missing[i - 1], missing[..i - 1];
      AnnouncedNext(s, nar, before, missing, i - 1);
      var k := MissingAt(s, before.Keys, closure, i - 1);
      forall h | h in InfoOf(s, nar, p).references
        ensures h in Announced(s, nar, before, earlier) || h == s.hash(p)
      {
        var q :| q in s.refs(p).value && s.hash(q) == h;
        ReferencedBefore(s, roots, k, q);
        if q != p {
          PlanHolds(s, before.Keys, closure[..k], q);
          AnnouncedHolds(s, nar, before, earlier, h);
        }
      }
      StaysClosed(Announced(s, nar, before, earlier), s.hash(p), InfoOf(s, nar, p));
    }
  }

  /** Nothing is left out of a plan for an empty cache. */
  lemma {:induction false} PlanOfAll(s: Store, closure: seq<StorePath>)
    ensures PlanMissing(s, {}, closure) == closure
  {
    if closure != [] {
      PlanOfAll(s, closure[1..]);
    }
  }

  /** Every moment of announcing some paths is closed. */
  ghost predicate ClosedMoments(s: Store, nar: StorePath -> nat, before: map<nat, NarInfo>, ps: seq<StorePath>) {
    forall i {:trigger ps[..i]} :: 0 <= i <= |ps| ==> Closed(Announced(s, nar, before, ps[..i]))
  }

  /** Pushing to an empty cache, every moment is closed exactly when nothing pushed
      is on a cycle. */
  lemma ClosedMomentsExactly(s: Store, nar: StorePath -> nat, before: map<nat, NarInfo>, roots: seq<StorePath>)
    requires s.Valid() && s.Distinct() && forall p :: p in roots ==> p in s.paths
    requires before == map[] && ComputeClosure(s, roots).Some?
    ensures ClosedMoments(s, nar, before, PlanMissing(s, before.Keys, ComputeClosure(s, roots).value))
            <==> CycleFree(s, Reachable(s, roots))
  {
    if CycleFree(s, Reachable(s, roots)) {
      FreeIsClosed(s, nar, before, roots);
    } else {
      CycleIsOpen(s, nar, before, roots);
    }
  }

  lemma FreeIsClosed(s: Store, nar: StorePath -> nat, before: map<nat, NarInfo>, roots: seq<StorePath>)
    requires s.Valid() && s.Distinct() && forall p :: p in roots ==> p in s.paths
    requires Closed(before) && ComputeClosure(s, roots).Some? && CycleFree(s, Reachable(s, roots))
    ensures ClosedMoments(s, nar, before, PlanMissing(s, before.Keys, ComputeClosure(s, roots).value))
  {
    var plan := PlanMissing(s, before.Keys, ComputeClosure(s, roots).value);
    forall i | 0 <= i <= |plan|
      ensures Closed(Announced(s, nar, before, plan[..i]))
    {
      AnnouncedIsClosed(s, nar, before, roots, i);
    }
  }

  lemma CycleIsOpen(s: Store, nar: StorePath -> nat, before: map<nat, NarInfo>, roots: seq<StorePath>)
    requires s.Valid() && s.Distinct() && forall p :: p in roots ==> p in s.paths
    requires before == map[] && ComputeClosure(s, roots).Some? && !CycleFree(s, Reachable(s, roots))
    ensures !ClosedMoments(s, nar, before, PlanMissing(s, before.Keys, ComputeClosure(s, roots).value))
  {
    var closure := ComputeClosure(s, roots).value;
    assert before.Keys == {};
    PlanOfAll(s, closure);
    ClosureIsExact(s, roots);
    forall p | p in closure
      ensures p in s.paths
    {
      assert p in Elements(closure);
    }
    if ClosedMoments(s, nar, before, closure) {
      ClosedIsOrdered(s, nar, before, closure);
    }
  }

  lemma ClosedIsOrdered(s: Store, nar: StorePath -> nat, before: map<nat, NarInfo>, closure: seq<StorePath>)
    requires s.Distinct() && before == map[] && forall p :: p in closure ==> p in s.paths
    requires ClosedMoments(s, nar, before, closure)
    ensures SuccessorsFirst(Proper(s.References()), closure)
  {
    forall i, q | 0 <= i < |closure| && Edge(Proper(s.References()), closure[i], q)
      ensures q in closure[..i]
    {
      assert Closed(Announced(s, nar, before, closure[..i + 1]));
      AnnouncedReference(s, nar, before, closure, i, q);
    }
  }

  /** A narinfo names the hash of each path its path references. */
  lemma ReferenceIsNamed(s: Store, nar: StorePath -> nat, p: StorePath, q: StorePath)
    requires Edge(Proper(s.References()), p, q)
    ensures p in s.paths && q in s.paths && q != p && s.hash(q) in InfoOf(s, nar, p).references
  {
    assert s.refs(p).Some? && q in s.refs(p).value;
  }

  /** A closed moment has announced what its last path references. */
  lemma AnnouncedReference(s: Store, nar: StorePath -> nat, before: map<nat, NarInfo>, closure: seq<StorePath>,
                           i: nat, q: StorePath)
    requires s.Distinct() && before == map[] && i < |closure| && forall p :: p in closure ==> p in s.paths
    requires Closed(Announced(s, nar, before, closure[..i + 1])) && Edge(Proper(s.References()), closure[i], q)
    ensures q in closure[..i]
  {
    var p, now := closure[i], Announced(s, nar, before, closure[..i + 1]);
    AnnouncedNext(s, nar, before, closure, i);
    assert p in closure;
    ReferenceIsNamed(s, nar, p, q);
    assert s.hash(q) in now[s.hash(p)].references;
    AnnouncedHolds(s, nar, before, closure[..i + 1], s.hash(q));
    var other :| other in closure[..i + 1] && s.hash(other) == s.hash(q);
    assert closure[..i + 1] == closure[..i] + [p];
    assert other in closure;
  }

  lemma StaysClosed(infos: map<nat, NarInfo>, h: nat, info: NarInfo)
    requires Closed(infos) && info.references <= infos.Keys + {h}
    ensures Closed(infos[h := info])
  {
  }

  /** What a path in the closure references is itself or comes before it. */
  lemma ReferencedBefore(s: Store, roots: seq<StorePath>, k: nat, q: StorePath)
    requires s.Valid() && s.Distinct() && (forall p :: p in roots ==> p in s.paths)
    requires ComputeClosure(s, roots).Some? && CycleFree(s, Reachable(s, roots))
    requires k < |ComputeClosure(s, roots).value|
    requires var p := ComputeClosure(s, roots).value[k]; s.refs(p).Some? && q in s.refs(p).value
    ensures var closure := ComputeClosure(s, roots).value; q == closure[k] || q in closure[..k]
  {
    ClosureIsExact(s, roots);
    var closure := ComputeClosure(s, roots).value;
    assert closure[k] in Elements(closure);
    assert closure[k] in s.paths;
    assert q != closure[k] ==> Edge(Proper(s.References()), closure[k], q);
  }

  /** Announcing some of the plan, with their NARs uploaded, extends what there was. */
  lemma AnnouncedExtends(s: Store, nar: StorePath -> nat, before: map<nat, NarInfo>, closure: seq<StorePath>, i: nat,
                         nars: set<nat>)
    requires i <= |PlanMissing(s, before.Keys, closure)|
    requires forall p :: p in PlanMissing(s, before.Keys, closure) ==> nar(p) in nars
    ensures Extends(before, Snapshot(nars, Announced(s, nar, before, PlanMissing(s, before.Keys, closure)[..i])))
  {
    var missing := PlanMissing(s, before.Keys, closure);
    forall h
      ensures var now := Announced(s, nar, before, missing[..i]);
              (h in before ==> h in now && now[h] == before[h]) && (h in now && h !in before ==> now[h].nar in nars)
    {
      AnnouncedHolds(s, nar, before, missing[..i], h);
      forall p | p in missing[..i]
        ensures s.hash(p) !in before && p in missing
      {
        PlanHolds(s, before.Keys, closure, p);
      }
    }
  }

  /** However far a plan has been announced, its NARs in place, the cache is sound. */
  ghost predicate PlanSound(ordered: bool, s: Store, nar: StorePath -> nat, before: map<nat, NarInfo>,
                            missing: seq<StorePath>, nars: set<nat>) {
    forall i {:trigger missing[..i]} :: 0 <= i <= |missing| ==>
      Sound(ordered, before, Snapshot(nars, Announced(s, nar, before, missing[..i])))
  }

  lemma PlanIsSound(s: Store, nar: StorePath -> nat, before: map<nat, NarInfo>, roots: seq<StorePath>, nars: set<nat>)
    requires s.Valid() && s.Distinct() && forall p :: p in roots ==> p in s.paths
    requires Closed(before) && ComputeClosure(s, roots).Some?
    requires forall p :: p in PlanMissing(s, before.Keys, ComputeClosure(s, roots).value) ==> nar(p) in nars
    ensures PlanSound(CycleFree(s, Reachable(s, roots)), s, nar, before,
                      PlanMissing(s, before.Keys, ComputeClosure(s, roots).value), nars)
  {
    var ordered := CycleFree(s, Reachable(s, roots));
    var missing := PlanMissing(s, before.Keys, ComputeClosure(s, roots).value);
    forall i | 0 <= i <= |missing|
      ensures Sound(ordered, before, Snapshot(nars, Announced(s, nar, before, missing[..i])))
    {
      AnnouncedExtends(s, nar, before, ComputeClosure(s, roots).value, i, nars);
      if ordered {
        AnnouncedIsClosed(s, nar, before, roots, i);
      }
    }
  }

  lemma AnnouncedNext(s: Store, nar: StorePath -> nat, before: map<nat, NarInfo>, ps: seq<StorePath>, i: nat)
    requires i < |ps|
    ensures Announced(s, nar, before, ps[..i + 1]) ==
            Announced(s, nar, before, ps[..i])[s.hash(ps[i]) := InfoOf(s, nar, ps[i])]
  {
    assert ps[..i + 1][..i] == ps[..i];
  }

  lemma MomentIsSound(ordered: bool, s: Store, nar: StorePath -> nat, before: map<nat, NarInfo>,
                      missing: seq<StorePath>, nars: set<nat>, i: nat)
    requires PlanSound(ordered, s, nar, before, missing, nars) && i < |missing|
    ensures Sound(ordered, before, Snapshot(nars, Announced(s, nar, before, missing[..i])))
    ensures Sound(ordered, before, Snapshot(nars, Announced(s, nar, before, missing[..i + 1])))
  {
  }

  // ---- Pushing ----------------------------------------------------------

  ghost predicate AllAnswered(replies: nat -> Reply, n: nat) {
    forall i {:trigger replies(i)} :: 0 <= i < n ==> replies(i).answered
  }

  /** Every request goes well of a push that has `n` paths to announce. */
  ghost predicate Goes(network: Network, n: nat) {
    && network.fetched && AllAnswered(network.nars, n) && AllAnswered(network.infos, n)
    && (n != 0 ==> network.verified)
  }

  /** What the roots reach that a cache of these hashes lacks. */
  ghost function Missing(s: Store, remote: set<nat>, roots: seq<StorePath>): set<StorePath> {
    set p | p in Reachable(s, roots) && s.hash(p) !in remote
  }

  /** The plan lists each path the cache lacks once. */
  lemma PlanSize(s: Store, remote: set<nat>, roots: seq<StorePath>)
    requires s.Valid() && s.Distinct() && (forall p :: p in roots ==> p in s.paths) && ComputeClosure(s, roots).Some?
    ensures |PlanMissing(s, remote, ComputeClosure(s, roots).value)| == |Missing(s, remote, roots)|
  {
    ClosureIsExact(s, roots);
    var closure := ComputeClosure(s, roots).value;
    var missing := PlanMissing(s, remote, closure);
    PlanDistinct(s, remote, closure);
    DistinctIsSize(missing);
    forall p
      ensures p in Elements(missing) <==> p in Missing(s, remote, roots)
    {
      PlanHolds(s, remote, closure, p);
      assert p in closure <==> p in Elements(closure);
    }
    assert Elements(missing) == Missing(s, remote, roots);
  }

  lemma {:induction false} PlanDistinct(s: Store, remote: set<nat>, closure: seq<StorePath>)
    requires NoDuplicates(closure)
    ensures NoDuplicates(PlanMissing(s, remote, closure))
  {
    if closure != [] {
      PlanDistinct(s, remote, closure[1..]);
      PlanHolds(s, remote, closure[1..], closure[0]);
    }
  }

  class Remote {
    var nars: set<nat>
    var infos: map<nat, NarInfo>

    /** Every state the cache has been in since it was first pushed to. */
    ghost var history: seq<Snapshot>

    constructor (nars: set<nat>, infos: map<nat, NarInfo>)
      ensures this.nars == nars && this.infos == infos && history == []
    {
      this.nars, this.infos, this.history := nars, infos, [];
    }

    /** PUT a NAR; a request that fails may still have stored it. */
    method UploadNar(s: Store, nar: StorePath -> nat, p: StorePath, reply: Reply) returns (info: Option<NarInfo>)
      modifies this
      ensures infos == old(infos) && (nars == old(nars) || nars == old(nars) + {nar(p)})
      ensures info.Some? <==> reply.answered
      ensures info.Some? ==> info.value == InfoOf(s, nar, p) && nar(p) in nars
      ensures history == old(history) + [Snapshot(nars, infos)]
    {
      if reply.stored || reply.answered {
        nars := nars + {nar(p)};
      }
      history := history + [Snapshot(nars, infos)];
      info := if reply.answered then Some(InfoOf(s, nar, p)) else None;
    }

    /** PUT a narinfo; a request that fails may still have announced the path. */
    method UploadNarInfo(h: nat, info: NarInfo, reply: Reply) returns (ok: bool)
      modifies this
      ensures ok <==> reply.answered
      ensures nars == old(nars) && (infos == old(infos)[h := info] || (!ok && infos == old(infos)))
      ensures history == old(history) + [Snapshot(nars, infos)]
    {
      ok := reply.answered;
      if reply.stored || ok {
        infos := infos[h := info];
      }
      history := history + [Snapshot(nars, infos)];
    }

    /** Upload the NAR of every missing path, and say what to announce; the first
        request to fail is the last. */
    method UploadNars(ghost ordered: bool, s: Store, nar: StorePath -> nat, missing: seq<StorePath>,
                      replies: nat -> Reply) returns (pairs: Option<seq<NarInfo>>)
      requires ordered ==> Closed(infos)
      modifies this
      ensures infos == old(infos) && old(nars) <= nars
      ensures pairs.Some? <==> AllAnswered(replies, |missing|)
      ensures pairs.Some? ==> pairs.value == Map((p: StorePath) => InfoOf(s, nar, p), missing)
                              && forall p :: p in missing ==> nar(p) in nars
      ensures old(history) <= history
      ensures AllSound(ordered, infos, history, |old(history)|)
    {
      var done: seq<NarInfo> := [];
      for i := 0 to |missing|
        invariant infos == old(infos) && old(nars) <= nars && |done| == i
        invariant forall j :: 0 <= j < i ==> done[j] == InfoOf(s, nar, missing[j]) && nar(missing[j]) in nars
        invariant AllAnswered(replies, i)
        invariant old(history) <= history
        invariant AllSound(ordered, infos, history, |old(history)|)
      {
        var info := UploadNar(s, nar, missing[i], replies(i));
        if info.None? { return None; }
        done := done + [info.value];
      }
      assert done == Map((p: StorePath) => InfoOf(s, nar, p), missing);
      pairs := Some(done);
    }

    /** Announce the paths of a plan whose NARs are in place, in order. */
    method AnnounceAll(ghost ordered: bool, s: Store, nar: StorePath -> nat, missing: seq<StorePath>,
                       pairs: seq<NarInfo>, replies: nat -> Reply) returns (ok: bool)
      requires PlanSound(ordered, s, nar, infos, missing, nars)
      requires |pairs| == |missing| && forall i :: 0 <= i < |missing| ==> pairs[i] == InfoOf(s, nar, missing[i])
      modifies this
      ensures nars == old(nars) && Sound(ordered, old(infos), Snapshot(nars, infos))
      ensures ok <==> AllAnswered(replies, |missing|)
      ensures ok ==> infos == Announced(s, nar, old(infos), missing)
      ensures old(history) <= history
      ensures AllSound(ordered, old(infos), history, |old(history)|)
    {
      ghost var before := infos;
      for i := 0 to |missing|
        invariant nars == old(nars) && infos == Announced(s, nar, before, missing[..i])
        invariant AllAnswered(replies, i)
        invariant old(history) <= history
        invariant AllSound(ordered, before, history, |old(history)|)
      {
        AnnouncedNext(s, nar, before, missing, i);
        MomentIsSound(ordered, s, nar, before, missing, nars, i);
        ok := UploadNarInfo(s.hash(missing[i]), pairs[i], replies(i));
        if !ok { return; }
      }
      assert missing[..|missing|] == missing;
      ok := true;
    }

    /** Push the closure of some paths; the last check may fail after everything is
        in place.  It succeeds exactly when everything reached is readable and every
        request it makes goes well.  Nothing is announced before its NAR, however
        it ends, and the cache is closed at every moment where nothing pushed is
        on a cycle. */
    method PushPaths(s: Store, nar: StorePath -> nat, roots: seq<StorePath>, network: Network)
        returns (r: Option<Summary>)
      requires s.Valid() && s.Distinct() && (forall p :: p in roots ==> p in s.paths) && Closed(infos)
      modifies this
      ensures old(history) <= history
      ensures AllSound(CycleFree(s, Reachable(s, roots)), old(infos), history, |old(history)|)
      ensures Extends(old(infos), Snapshot(nars, infos))
      ensures r.Some? <==>
                !SomeUnreadable(s, Reachable(s, roots)) && Goes(network, |Missing(s, old(infos.Keys), roots)|)
      ensures r.Some? ==>
                && (forall p :: p in Reachable(s, roots) ==> s.hash(p) in infos)
                && r.value.pushed == |Missing(s, old(infos.Keys), roots)|
                && r.value.pushed + r.value.skipped == |Reachable(s, roots)|
                && (forall h :: h in infos && h !in old(infos) ==>
                      exists p :: p in Reachable(s, roots) && s.hash(p) == h && infos[h] == InfoOf(s, nar, p))
    {
      ghost var ordered := CycleFree(s, Reachable(s, roots));
      var closed := ComputeClosure(s, roots);
      if closed.None? {
        ClosureIsExact(s, roots);
        return None;
      }
      var closure := closed.value;
      if !network.fetched { return None; }
      var missing := PlanMissing(s, infos.Keys, closure);
      PlanSize(s, infos.Keys, roots);
      var pairs := UploadNars(ordered, s, nar, missing, network.nars);
      if pairs.None? { return None; }
      ghost var before := infos;
      PlanIsSound(s, nar, before, roots, nars);
      ghost var uploaded := history;
      var ok := AnnounceAll(ordered, s, nar, missing, pairs.value, network.infos);
      AllSoundTogether(ordered, before, old(history), uploaded, history);
      if !ok { return None; }
      if missing != [] && !network.verified { return None; }
      PushedAll(s, nar, before, roots);
      r := Some(Summary(|missing|, |closure| - |missing|));
    }
  }

  /** With the whole plan announced, everything the roots reach is, and only that. */
  lemma PushedAll(s: Store, nar: StorePath -> nat, before: map<nat, NarInfo>, roots: seq<StorePath>)
    requires s.Valid() && s.Distinct() && (forall p :: p in roots ==> p in s.paths) && ComputeClosure(s, roots).Some?
    ensures var closure := ComputeClosure(s, roots).value;
            var missing := PlanMissing(s, before.Keys, closure);
            var now := Announced(s, nar, before, missing);
            && !SomeUnreadable(s, Reachable(s, roots))
            && (forall p :: p in Reachable(s, roots) ==> s.hash(p) in now)
            && |missing| <= |closure| == |Reachable(s, roots)|
            && (forall h :: h in now && h !in before ==>
                  exists p :: p in Reachable(s, roots) && s.hash(p) == h && now[h] == InfoOf(s, nar, p))
  {
    ClosureIsExact(s, roots);
    var closure := ComputeClosure(s, roots).value;
    var missing := PlanMissing(s, before.Keys, closure);
    DistinctIsSize(closure);
    forall p | p in Reachable(s, roots)
      ensures s.hash(p) in Announced(s, nar, before, missing)
    {
      assert p in Elements(closure);
      PlanHolds(s, before.Keys, closure, p);
      AnnouncedHolds(s, nar, before, missing, s.hash(p));
    }
    forall h | h in Announced(s, nar, before, missing) && h !in before
      ensures exists p ::
                p in Reachable(s, roots) && s.hash(p) == h && Announced(s, nar, before, missing)[h] == InfoOf(s, nar, p)
    {
      AnnouncedHolds(s, nar, before, missing, h);
      var p :| p in missing && s.hash(p) == h && Announced(s, nar, before, missing)[h] == InfoOf(s, nar, p);
      PlanHolds(s, before.Keys, closure, p);
      assert p in Elements(closure);
    }
    PlanHolds(s, before.Keys, closure, 0);
  }
}
