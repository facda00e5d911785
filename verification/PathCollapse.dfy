/** Lexical collapse of a path's segments (src/Nix/Config.hs): where an include
    points, without `.`, and with `..` only where nothing is left to go up from. */
module PathCollapse {
  import opened Basics

  type Segment = Text

  const DOT: Segment := "."
  const UP: Segment := ".."

  /** One segment of the collapse. */
  function Step(rooted: bool, done: seq<Segment>, s: Segment): seq<Segment> {
    if s == DOT then done
    else if s == UP then
      if done == [] then (if rooted then [] else [UP])
      else if done[|done| - 1] == UP then done + [UP]
      else done[..|done| - 1]
    else done + [s]
  }

  function CollapseFrom(rooted: bool, done: seq<Segment>, segments: seq<Segment>): seq<Segment>
    decreases segments
  {
    if segments == [] then done else CollapseFrom(rooted, Step(rooted, done, segments[0]), segments[1..])
  }

  function Collapse(rooted: bool, segments: seq<Segment>): seq<Segment> {
    CollapseFrom(rooted, [], segments)
  }

  // ---- What a path means ------------------------------------------------

  /** The directory reached from another, each given by the names down to it. */
  function Walk(base: seq<Segment>, segments: seq<Segment>): seq<Segment>
    decreases segments
  {
    if segments == [] then base else Walk(Go(base, segments[0]), segments[1..])
  }

  function Go(dir: seq<Segment>, s: Segment): seq<Segment> {
    if s == DOT then dir
    else if s == UP then (if dir == [] then [] else dir[..|dir| - 1])
    else dir + [s]
  }

  lemma {:induction false} WalkLast(base: seq<Segment>, segments: seq<Segment>, s: Segment)
    ensures Walk(base, segments + [s]) == Go(Walk(base, segments), s)
    decreases segments
  {
    if segments == [] {
      assert (segments + [s])[1..] == [] && segments + [s] == [s];
    } else {
      assert (segments + [s])[1..] == segments[1..] + [s];
      WalkLast(Go(base, segments[0]), segments[1..], s);
    }
  }

  /** Names after a run of `..`, which a rooted path has none of. */
  predicate Normal(rooted: bool, segments: seq<Segment>) {
    && (forall i :: 0 <= i < |segments| ==> segments[i] != DOT)
    && (forall i :: 0 <= i < |segments| && segments[i] == UP ==> !rooted && forall j :: 0 <= j < i ==>
         segments[j] == UP)
  }

  lemma StepKeeps(rooted: bool, done: seq<Segment>, s: Segment, base: seq<Segment>)
    requires Normal(rooted, done) && (rooted ==> base == [])
    ensures Normal(rooted, Step(rooted, done, s))
    ensures Walk(base, Step(rooted, done, s)) == Go(Walk(base, done), s)
  {
    WalkLast(base, done, s);
    if s == UP && done != [] && done[|done| - 1] != UP {
      var rest := done[..|done| - 1];
      assert done == rest + [done[|done| - 1]];
      WalkLast(base, rest, done[|done| - 1]);
    }
  }

  lemma {:induction false} CollapseFromKeeps(rooted: bool, done: seq<Segment>, segments: seq<Segment>,
                                             base: seq<Segment>)
    requires Normal(rooted, done) && (rooted ==> base == [])
    ensures Normal(rooted, CollapseFrom(rooted, done, segments))
    ensures Walk(base, CollapseFrom(rooted, done, segments)) == Walk(Walk(base, done), segments)
    decreases segments
  {
    if segments != [] {
      StepKeeps(rooted, done, segments[0], base);
      CollapseFromKeeps(rooted, Step(rooted, done, segments[0]), segments[1..], base);
    }
  }

  /** A collapsed path leads where the path led, from any directory for a relative
      one and from the root for a rooted one, and has nothing left to collapse. */
  lemma CollapseLeadsThere(rooted: bool, segments: seq<Segment>, base: seq<Segment>)
    requires rooted ==> base == []
    ensures Normal(rooted, Collapse(rooted, segments))
    ensures Walk(base, Collapse(rooted, segments)) == Walk(base, segments)
  {
    CollapseFromKeeps(rooted, [], segments, base);
  }

  lemma {:induction false} NormalStays(rooted: bool, done: seq<Segment>, segments: seq<Segment>)
    requires Normal(rooted, done + segments)
    ensures CollapseFrom(rooted, done, segments) == done + segments
    decreases segments
  {
    if segments == [] {
      assert done + segments == done;
    } else {
      var s := segments[0];
      assert (done + segments)[|done|] == s;
      assert done + [s] + segments[1..] == done + segments;
      if s == UP && done != [] {
        assert (done + segments)[|done| - 1] == done[|done| - 1];
      }
      assert Step(rooted, done, s) == done + [s];
      NormalStays(rooted, done + [s], segments[1..]);
    }
  }

  /** A collapsed path is as short as it gets: collapsing it again changes nothing. */
  lemma CollapseTwice(rooted: bool, segments: seq<Segment>)
    ensures Collapse(rooted, Collapse(rooted, segments)) == Collapse(rooted, segments)
  {
    CollapseFromKeeps(rooted, [], segments, []);
    assert [] + Collapse(rooted, segments) == Collapse(rooted, segments);
    NormalStays(rooted, [], Collapse(rooted, segments));
  }
}
