/** Texts in the order of their code points, and lists and maps kept in order. */
module TextOrder {
  import opened Basics
  import opened Sorting

  predicate AtMostText(s: Text, t: Text) {
    s == [] || (t != [] && (s[0] < t[0] || (s[0] == t[0] && AtMostText(s[1..], t[1..]))))
  }

  /** The first code point in which two texts differ is smaller in the first. */
  ghost predicate Below(s: Text, t: Text, k: int) {
    0 <= k < |s| && k < |t| && s[..k] == t[..k] && s[k] < t[k]
  }

  lemma BelowNext(s: Text, t: Text, k: int)
    requires s != [] && t != [] && s[0] == t[0] && k > 0
    ensures Below(s, t, k) <==> Below(s[1..], t[1..], k - 1)
  {
    if k < |s| && k < |t| {
      assert s[..k] == [s[0]] + s[1..][..k - 1] && t[..k] == [t[0]] + t[1..][..k - 1];
      assert s[..k][1..] == s[1..][..k - 1] && t[..k][1..] == t[1..][..k - 1];
    }
  }

  /** One text is at most another when it starts it, or has the smaller code point
      where they first differ. */
  lemma {:induction false} AtMostTextMeans(s: Text, t: Text)
    ensures AtMostText(s, t) <==> s <= t || exists k :: Below(s, t, k)
  {
    if s != [] && t != [] {
      if s[0] == t[0] {
        AtMostTextMeans(s[1..], t[1..]);
        assert s <= t <==> s[1..] <= t[1..] by {
          assert s == [s[0]] + s[1..] && t == [t[0]] + t[1..];
        }
        if k :| Below(s, t, k) {
          BelowNext(s, t, k);
          assert Below(s[1..], t[1..], k - 1);
        }
        if k :| Below(s[1..], t[1..], k) {
          BelowNext(s, t, k + 1);
          assert Below(s, t, k + 1);
        }
      } else if s[0] < t[0] {
        assert Below(s, t, 0);
      }
    }
  }

  lemma {:induction false} TextReflexive(s: Text)
    ensures AtMostText(s, s)
  {
    if s != [] {
      TextReflexive(s[1..]);
    }
  }

  lemma {:induction false} TextAntisymmetric(s: Text, t: Text)
    requires AtMostText(s, t) && AtMostText(t, s)
    ensures s == t
  {
    if s != [] && t != [] {
      TextAntisymmetric(s[1..], t[1..]);
      assert s == [s[0]] + s[1..] && t == [t[0]] + t[1..];
    }
  }

  lemma {:induction false} TextTransitive(s: Text, t: Text, u: Text)
    requires AtMostText(s, t) && AtMostText(t, u)
    ensures AtMostText(s, u)
  {
    if s != [] && s[0] == t[0] == u[0] {
      TextTransitive(s[1..], t[1..], u[1..]);
    }
  }

  lemma {:induction false} TextTotal(s: Text, t: Text)
    ensures AtMostText(s, t) || AtMostText(t, s)
  {
    if s != [] && t != [] {
      TextTotal(s[1..], t[1..]);
    }
  }

  lemma TextsOrdered()
    ensures TotalOrder(AtMostText)
  {
    forall s
      ensures AtMostText(s, s)
    {
      TextReflexive(s);
    }
    forall s, t | AtMostText(s, t) && AtMostText(t, s)
      ensures s == t
    {
      TextAntisymmetric(s, t);
    }
    forall s, t, u | AtMostText(s, t) && AtMostText(t, u)
      ensures AtMostText(s, u)
    {
      TextTransitive(s, t, u);
    }
    forall s, t
      ensures AtMostText(s, t) || AtMostText(t, s)
    {
      TextTotal(s, t);
    }
  }

  /** A set of texts as `Set.toAscList` gives it. */
  function AscendingTexts(s: set<Text>): (r: seq<Text>)
    ensures forall t :: t in r <==> t in s
  {
    TextsOrdered();
    Ascending(AtMostText, s)
  }

  // ---- Stable sorting by a key ------------------------------------------

  /** Put an item before the first one whose key is no less. */
  function InsertBy<T(!new)>(key: T -> Text, x: T, s: seq<T>): (r: seq<T>)
    ensures |r| == |s| + 1 && forall y :: y in r <==> y == x || y in s
  {
    if s == [] || AtMostText(key(x), key(s[0])) then [x] + s
    else [s[0]] + InsertBy(key, x, s[1..])
  }

  /** `sortBy (compare on key)`. */
  function SortBy<T(!new)>(key: T -> Text, s: seq<T>): (r: seq<T>)
    ensures |r| == |s| && forall x :: x in r <==> x in s
  {
    if s == [] then [] else InsertBy(key, s[0], SortBy(key, s[1..]))
  }

  ghost predicate SortedBy<T>(key: T -> Text, s: seq<T>) {
    forall i, j :: 0 <= i < j < |s| ==> AtMostText(key(s[i]), key(s[j]))
  }

  /** The items under one key, in order. */
  function Under<T>(key: T -> Text, k: Text, s: seq<T>): seq<T> {
    if s == [] then [] else (if key(s[0]) == k then [s[0]] else []) + Under(key, k, s[1..])
  }

  lemma {:induction false} InsertBySorted<T(!new)>(key: T -> Text, x: T, s: seq<T>)
    requires SortedBy(key, s)
    ensures SortedBy(key, InsertBy(key, x, s))
    ensures forall k :: Under(key, k, InsertBy(key, x, s)) == (if key(x) == k then [x] else []) + Under(key, k, s)
  {
    TextsOrdered();
    if s == [] || AtMostText(key(x), key(s[0])) {
      assert ([x] + s)[1..] == s;
    } else {
      var rest := InsertBy(key, x, s[1..]);
      InsertBySorted(key, x, s[1..]);
      assert ([s[0]] + rest)[1..] == rest;
      forall y | y in rest
        ensures AtMostText(key(s[0]), key(y))
      {
      }
      assert key(x) != key(s[0]);
    }
  }

  /** Sorting puts a list in order and keeps, under each key, the
      items it was given in the order it was given them. */
  lemma {:induction false} SortByIsStable<T(!new)>(key: T -> Text, s: seq<T>)
    ensures SortedBy(key, SortBy(key, s))
    ensures forall k :: Under(key, k, SortBy(key, s)) == Under(key, k, s)
  {
    if s != [] {
      SortByIsStable(key, s[1..]);
      InsertBySorted(key, s[0], SortBy(key, s[1..]));
    }
  }

  /** A list in order stays as it is. */
  lemma {:induction false} SortedStays<T(!new)>(key: T -> Text, s: seq<T>)
    requires SortedBy(key, s)
    ensures SortBy(key, s) == s
  {
    if s != [] {
      SortedStays(key, s[1..]);
    }
  }

  /** Changing items but not their keys changes nothing about the order. */
  lemma {:induction false} SortByCommutes<T(!new)>(key: T -> Text, f: T -> T, s: seq<T>)
    requires forall x :: key(f(x)) == key(x)
    ensures SortBy(key, Map(f, s)) == Map(f, SortBy(key, s))
  {
    if s != [] {
      SortByCommutes(key, f, s[1..]);
      assert Map(f, s)[1..] == Map(f, s[1..]);
      InsertByCommutes(key, f, s[0], SortBy(key, s[1..]));
    }
  }

  lemma {:induction false} InsertByCommutes<T(!new)>(key: T -> Text, f: T -> T, x: T, s: seq<T>)
    requires forall y :: key(f(y)) == key(y)
    ensures InsertBy(key, f(x), Map(f, s)) == Map(f, InsertBy(key, x, s))
  {
    if s == [] || AtMostText(key(x), key(s[0])) {
      assert Map(f, [x] + s) == [f(x)] + Map(f, s);
    } else {
      InsertByCommutes(key, f, x, s[1..]);
      assert Map(f, s)[1..] == Map(f, s[1..]);
    }
  }

  // ---- Maps as ascending lists ------------------------------------------

  /** `Map.toAscList`. */
  function Pairs<K(!new,==), V>(le: (K, K) -> bool, m: map<K, V>): (r: seq<(K, V)>)
    requires TotalOrder(le)
    ensures |r| == |Ascending(le, m.Keys)|
    ensures forall i :: 0 <= i < |r| ==> r[i].0 == Ascending(le, m.Keys)[i] && r[i].0 in m && r[i].1 == m[r[i].0]
  {
    var keys := Ascending(le, m.Keys);
    assert forall i :: 0 <= i < |keys| ==> keys[i] in keys;
    seq(|keys|, i requires 0 <= i < |keys| => (keys[i], m[keys[i]]))
  }

  /** `Map.fromListWith`: `join` takes the later value first. */
  function FromListWith<K, V>(join: (V, V) -> V, ps: seq<(K, V)>): (m: map<K, V>)
    ensures forall k :: k in m ==> exists i :: 0 <= i < |ps| && ps[i].0 == k
  {
    if ps == [] then map[]
    else
      var earlier := FromListWith(join, ps[..|ps| - 1]);
      var (k, v) := ps[|ps| - 1];
      assert forall i :: 0 <= i < |ps| - 1 ==> ps[..|ps| - 1][i] == ps[i];
      earlier[k := if k in earlier then join(v, earlier[k]) else v]
  }

  lemma {:induction false} FromDistinct<K, V>(join: (V, V) -> V, ps: seq<(K, V)>)
    requires forall i, j :: 0 <= i < j < |ps| ==> ps[i].0 != ps[j].0
    ensures forall i :: 0 <= i < |ps| ==>
            ps[i].0 in FromListWith(join, ps) && FromListWith(join, ps)[ps[i].0] == ps[i].1
  {
    if ps != [] {
      var rest := ps[..|ps| - 1];
      FromDistinct(join, rest);
      assert ps[|ps| - 1].0 !in FromListWith(join, rest);
      forall i | 0 <= i < |ps|
        ensures ps[i].0 in FromListWith(join, ps) && FromListWith(join, ps)[ps[i].0] == ps[i].1
      {
        assert i < |ps| - 1 ==> rest[i] == ps[i];
      }
    }
  }

  /** A map is rebuilt from its list, whatever a repeated key would do. */
  lemma FromPairs<K(!new), V>(le: (K, K) -> bool, join: (V, V) -> V, m: map<K, V>)
    requires TotalOrder(le)
    ensures FromListWith(join, Pairs(le, m)) == m
  {
    var ps, keys := Pairs(le, m), Ascending(le, m.Keys);
    AscendingIncreases(le, m.Keys);
    FromDistinct(join, ps);
    forall k | k in m
      ensures k in FromListWith(join, ps) && FromListWith(join, ps)[k] == m[k]
    {
      assert k in keys;
      var i :| 0 <= i < |keys| && keys[i] == k;
      assert ps[i].0 == k;
    }
  }
}
