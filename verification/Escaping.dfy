/** Escaping in bulk: the writers of ATerm and JSON strings copy the runs that need
    no escape whole. */
module Escaping {
  import opened Basics

  /** Clean runs as they are, and what stops each one spelled out. */
  function CopyRuns<T>(stops: T -> bool, spelled: T -> seq<T>, s: seq<T>): seq<T>
    decreases |s|
  {
    var n := Clean(stops, s);
    if n == |s| then s else s[..n] + spelled(s[n]) + CopyRuns(stops, spelled, s[n + 1..])
  }

  /** Each item spelled out in turn. */
  function SpellEach<T>(spelled: T -> seq<T>, s: seq<T>): seq<T> {
    if s == [] then [] else spelled(s[0]) + SpellEach(spelled, s[1..])
  }

  lemma SpellFirst<T>(spelled: T -> seq<T>, s: seq<T>, after: seq<T>)
    requires s != []
    ensures SpellEach(spelled, s) + after == spelled(s[0]) + (SpellEach(spelled, s[1..]) + after)
  {
  }

  /** Where what does not stop a run is spelled as itself, both give the same. */
  lemma {:induction false} RunsAreEach<T(!new)>(stops: T -> bool, spelled: T -> seq<T>, s: seq<T>)
    requires forall x :: !stops(x) ==> spelled(x) == [x]
    ensures CopyRuns(stops, spelled, s) == SpellEach(spelled, s)
  {
    if s != [] {
      assert s == [s[0]] + s[1..];
      if stops(s[0]) {
        RunStops(stops, spelled, s[0], s[1..]);
      } else {
        RunGrows(stops, spelled, s[0], s[1..]);
      }
      RunsAreEach(stops, spelled, s[1..]);
    }
  }

  lemma RunStops<T>(stops: T -> bool, spelled: T -> seq<T>, x: T, s: seq<T>)
    requires stops(x)
    ensures CopyRuns(stops, spelled, [x] + s) == spelled(x) + CopyRuns(stops, spelled, s)
  {
    var whole := [x] + s;
    CleanCons(stops, x, s);
    assert whole[..0] == [] && whole[1..] == s;
    assert [] + spelled(x) == spelled(x);
  }

  lemma RunGrows<T>(stops: T -> bool, spelled: T -> seq<T>, x: T, s: seq<T>)
    requires !stops(x)
    ensures CopyRuns(stops, spelled, [x] + s) == [x] + CopyRuns(stops, spelled, s)
  {
    var whole, n := [x] + s, Clean(stops, s);
    CleanCons(stops, x, s);
    if n < |s| {
      RunSplits(x, s, n);
      RegroupFour([x], s[..n], spelled(s[n]), CopyRuns(stops, spelled, s[n + 1..]));
    }
  }

  lemma RunSplits<T>(x: T, s: seq<T>, n: nat)
    requires n < |s|
    ensures var whole := [x] + s;
            whole[..n + 1] == [x] + s[..n] && whole[n + 1] == s[n] && whole[n + 2..] == s[n + 1..]
  {
  }

  /** More read in front of what a parse gives. */
  function Before<A, S>(start: seq<A>, p: Parse<seq<A>, S>): Parse<seq<A>, S> {
    match p
    case Failure => Failure
    case Success(s, rest) => Success(start + s, rest)
  }

  lemma BeforeBefore<A, S>(s: seq<A>, t: seq<A>, p: Parse<seq<A>, S>)
    ensures Before(s, Before(t, p)) == Before(s + t, p)
  {
    if p.Success? {
      assert s + (t + p.value) == s + t + p.value;
    }
  }
}
