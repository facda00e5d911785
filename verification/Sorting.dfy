/** Ascending lists of sets, as `Set.toAscList` and `Map.keys` give them. */
module Sorting {
  import opened Basics

  ghost predicate TotalOrder<T(!new)>(le: (T, T) -> bool) {
    && (forall x :: le(x, x))
    && (forall x, y :: le(x, y) && le(y, x) ==> x == y)
    && (forall x, y, z :: le(x, y) && le(y, z) ==> le(x, z))
    && (forall x, y :: le(x, y) || le(y, x))
  }

  ghost predicate Increasing<T>(le: (T, T) -> bool, s: seq<T>) {
    forall i, j :: 0 <= i < j < |s| ==> le(s[i], s[j]) && s[i] != s[j]
  }

  lemma LeastExists<T(!new)>(le: (T, T) -> bool, s: set<T>) returns (least: T)
    requires TotalOrder(le) && s != {}
    ensures least in s && forall x :: x in s ==> le(least, x)
  {
    var x :| x in s;
    if s == {x} {
      least := x;
    } else {
      var rest := LeastExists(le, s - {x});
      least := if le(x, rest) then x else rest;
      assert forall y :: y in s ==> y == x || y in s - {x};
    }
  }

  function Least<T(!new,==)>(le: (T, T) -> bool, s: set<T>): (least: T)
    requires TotalOrder(le) && s != {}
    ensures least in s && forall x :: x in s ==> le(least, x)
  {
    assert exists m :: m in s && forall x :: x in s ==> le(m, x) by {
      var m := LeastExists(le, s);
    }
    var m :| m in s && forall x :: x in s ==> le(m, x);
    m
  }

  /** The elements of a set in ascending order. */
  function Ascending<T(!new,==)>(le: (T, T) -> bool, s: set<T>): (r: seq<T>)
    requires TotalOrder(le)
    ensures forall x :: x in r <==> x in s
    decreases |s|
  {
    if s == {} then []
    else var least := Least(le, s); [least] + Ascending(le, s - {least})
  }

  lemma {:induction false} AscendingIncreases<T(!new)>(le: (T, T) -> bool, s: set<T>)
    requires TotalOrder(le)
    ensures Increasing(le, Ascending(le, s)) && |Ascending(le, s)| == |s|
    decreases |s|
  {
    if s != {} {
      var least := Least(le, s);
      var rest := Ascending(le, s - {least});
      AscendingIncreases(le, s - {least});
      forall i, j | 0 <= i < j < |[least] + rest|
        ensures le(([least] + rest)[i], ([least] + rest)[j]) && ([least] + rest)[i] != ([least] + rest)[j]
      {
        assert rest[j - 1] in rest;
      }
    }
  }

  /** Each element comes before every later one. */
  ghost predicate Listed<T>(before: (T, T) -> bool, s: seq<T>) {
    forall i, j :: 0 <= i < j < |s| ==> before(s[i], s[j])
  }

  /** A list in an asymmetric order is determined by its elements. */
  lemma {:induction false} ListedUnique<T(!new)>(before: (T, T) -> bool, s: seq<T>, t: seq<T>)
    requires forall x, y :: before(x, y) ==> !before(y, x)
    requires Listed(before, s) && Listed(before, t)
    requires Elements(s) == Elements(t)
    ensures s == t
  {
    assert s != [] ==> s[|s| - 1] in Elements(s);
    assert t != [] ==> t[|t| - 1] in Elements(t);
    if s != [] && t != [] {
      var a, b := s[|s| - 1], t[|t| - 1];
      assert a in t && b in s;
      assert a == b;
      assert Elements(s[..|s| - 1]) == Elements(s) - {a} && Elements(t[..|t| - 1]) == Elements(t) - {b};
      ListedUnique(before, s[..|s| - 1], t[..|t| - 1]);
    }
  }

  predicate AtMost(x: nat, y: nat) { x <= y }

  /** Store paths in their own order. */
  function AscendingPaths(s: set<StorePath>): (r: seq<StorePath>)
    ensures forall x :: x in r <==> x in s
  {
    Ascending(AtMost, s)
  }

  lemma AscendingPathsIncrease(s: set<StorePath>)
    ensures var r := AscendingPaths(s);
            |r| == |s| && forall i, j :: 0 <= i < j < |r| ==> r[i] < r[j]
  {
    AscendingIncreases(AtMost, s);
  }
}
