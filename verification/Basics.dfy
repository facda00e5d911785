/** Types every component shares. */
module Basics {
  datatype Option<+T> = None | Some(value: T)

  datatype Result<+T, +E> = Ok(value: T) | Err(error: E)

  /** What a parser makes of the front of its input, and what is left. */
  datatype Parse<+A, +S> = Failure | Success(value: A, rest: S) {
    predicate IsFailure() { Failure? }

    function PropagateFailure<B>(): Parse<B, S>
      requires Failure?
    {
      Failure
    }

    function Extract(): (A, S)
      requires Success?
    {
      (value, rest)
    }
  }

  /** A store path is known only by its place in the order the program derives
      for it (hash, then name). */
  type StorePath = nat

  /** Dafny's `char` is a Unicode scalar value, so a `string` is a `Text`. */
  type Text = string

  type Byte = b: int | 0 <= b < 256

  type Bytes = seq<Byte>

  ghost predicate NoDuplicates<T>(s: seq<T>) {
    forall i, j :: 0 <= i < j < |s| ==> s[i] != s[j]
  }

  function Elements<T>(s: seq<T>): set<T> {
    set x | x in s
  }

  lemma AppendDistinct<T>(a: seq<T>, b: seq<T>)
    requires NoDuplicates(a) && NoDuplicates(b) && Elements(a) !! Elements(b)
    ensures NoDuplicates(a + b)
  {
    forall i, j | 0 <= i < j < |a + b|
      ensures (a + b)[i] != (a + b)[j]
    {
      if i < |a| <= j {
        assert a[i] in Elements(a) && b[j - |a|] in Elements(b);
      }
    }
  }

  lemma {:induction false} DistinctSize<T>(s: seq<T>, all: set<T>)
    requires NoDuplicates(s) && Elements(s) <= all
    ensures |s| <= |all|
    ensures |s| == |all| ==> Elements(s) == all
  {
    if s != [] {
      var last := |s| - 1;
      assert s[last] in Elements(s);
      forall x | x in s[..last]
        ensures x in all - {s[last]}
      {
        assert x in Elements(s);
      }
      DistinctSize(s[..last], all - {s[last]});
      assert Elements(s) == Elements(s[..last]) + {s[last]};
    }
  }

  lemma {:induction false} DistinctIsSize<T>(s: seq<T>)
    requires NoDuplicates(s)
    ensures |Elements(s)| == |s|
  {
    if s != [] {
      var last := |s| - 1;
      DistinctIsSize(s[..last]);
      assert Elements(s) == Elements(s[..last]) + {s[last]};
    }
  }

  ghost function One(b: bool): nat { if b then 1 else 0 }

  lemma CountsFirst<T>(s: seq<T>, x: T)
    requires s != []
    ensures multiset(s)[x] == One(s[0] == x) + multiset(s[1..])[x]
  {
    assert s == [s[0]] + s[1..];
  }

  /** Nothing is repeated exactly when nothing is counted twice. */
  lemma {:induction false} CountsOnceExactly<T(!new)>(s: seq<T>)
    ensures NoDuplicates(s) <==> forall x :: multiset(s)[x] <= 1
  {
    if s != [] {
      var first, rest := s[0], s[1..];
      CountsOnceExactly(rest);
      forall x
        ensures multiset(s)[x] == One(first == x) + multiset(rest)[x]
      {
        CountsFirst(s, x);
      }
      assert NoDuplicates(s) <==> NoDuplicates(rest) && first !in rest by {
        assert s == [first] + rest;
        if NoDuplicates(rest) && first !in rest {
          AppendDistinct([first], rest);
        }
        if NoDuplicates(s) {
          assert forall i :: 0 <= i < |rest| ==> rest[i] == s[i + 1];
        }
      }
      assert first in rest <==> multiset(rest)[first] > 0;
    }
  }

  function Map<T, U>(f: T -> U, s: seq<T>): (r: seq<U>)
    ensures |r| == |s| && forall i :: 0 <= i < |s| ==> r[i] == f(s[i])
  {
    seq(|s|, i requires 0 <= i < |s| => f(s[i]))
  }

  lemma MapFirst<T, U>(f: T -> U, s: seq<T>)
    requires s != []
    ensures Map(f, s) == [f(s[0])] + Map(f, s[1..])
  {
  }

  function Reverse<T>(s: seq<T>): (r: seq<T>)
    ensures |r| == |s| && forall i :: 0 <= i < |s| ==> r[i] == s[|s| - 1 - i]
  {
    seq(|s|, i requires 0 <= i < |s| => s[|s| - 1 - i])
  }

  /** How many items come before the first that stops. */
  function Clean<T>(stops: T -> bool, s: seq<T>): (n: nat)
    ensures n <= |s| && (n < |s| ==> stops(s[n]))
    ensures forall i :: 0 <= i < n ==> !stops(s[i])
  {
    if s == [] || stops(s[0]) then 0 else 1 + Clean(stops, s[1..])
  }

  lemma CleanCons<T>(stops: T -> bool, x: T, s: seq<T>)
    ensures Clean(stops, [x] + s) == if stops(x) then 0 else 1 + Clean(stops, s)
  {
    assert ([x] + s)[1..] == s;
  }

  lemma Regroup<T>(a: seq<T>, b: seq<T>, c: seq<T>)
    ensures a + b + c == a + (b + c)
  {
  }

  lemma Nested<T>(a: seq<T>, b: seq<T>, c: seq<T>, d: seq<T>)
    ensures a + b + c + d == a + (b + (c + d))
  {
  }

  lemma RegroupFour<T>(a: seq<T>, b: seq<T>, c: seq<T>, d: seq<T>)
    ensures a + b + c + d == a + (b + c + d)
  {
  }
}
