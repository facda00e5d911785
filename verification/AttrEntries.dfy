/** What the entries of an attribute set mean, and the orders its operations
    put them in (cbits/nn_attrset.c, cbits/nn_attrset.h). */
module AttrEntries {
  import opened Basics
  import opened Sorting

  /** A symbol, the position it was defined at, and an opaque value. */
  datatype Entry = Entry(key: nat, pos: nat, value: nat)

  // ---- The map a list of entries stands for -----------------------------

  /** The last entry inserted under a key. */
  function Find(s: seq<Entry>, k: nat): Option<Entry> {
    if s == [] then None
    else if s[|s| - 1].key == k then Some(s[|s| - 1])
    else Find(s[..|s| - 1], k)
  }

  function Keys(s: seq<Entry>): set<nat> {
    set e | e in s :: e.key
  }

  function MapOf(s: seq<Entry>): map<nat, Entry> {
    map k | k in Keys(s) && Find(s, k).Some? :: Find(s, k).value
  }

  lemma {:induction false} FindHolds(s: seq<Entry>, k: nat)
    ensures Find(s, k).Some? <==> k in Keys(s)
    ensures Find(s, k).Some? ==> Find(s, k).value in s && Find(s, k).value.key == k
  {
    if s != [] {
      var last := s[|s| - 1];
      FindHolds(s[..|s| - 1], k);
      assert forall e :: e in s <==> e == last || e in s[..|s| - 1];
    }
  }

  /** Lists that find the same entries stand for the same map. */
  lemma SameMap(s: seq<Entry>, t: seq<Entry>)
    requires forall k :: Find(s, k) == Find(t, k)
    ensures MapOf(s) == MapOf(t)
  {
    forall k
      ensures k in Keys(s) <==> k in Keys(t)
    {
      FindHolds(s, k);
      FindHolds(t, k);
    }
  }

  lemma MapFinds(s: seq<Entry>, k: nat)
    ensures k in MapOf(s) <==> Find(s, k).Some?
    ensures k in MapOf(s) ==> MapOf(s)[k] == Find(s, k).value
  {
    FindHolds(s, k);
  }

  lemma {:induction false} FindAppend(s: seq<Entry>, t: seq<Entry>, k: nat)
    ensures Find(s + t, k) == if Find(t, k).Some? then Find(t, k) else Find(s, k)
  {
    if t == [] {
      assert s + t == s;
    } else {
      assert (s + t)[..|s + t| - 1] == s + t[..|t| - 1];
      FindAppend(s, t[..|t| - 1], k);
    }
  }

  lemma FindOne(e: Entry, k: nat)
    ensures Find([e], k) == if e.key == k then Some(e) else None
  {
    assert Find([e][..0], k) == None;
  }

  /** Inserting an entry updates the map. */
  lemma InsertIsUpdate(s: seq<Entry>, e: Entry)
    ensures MapOf(s + [e]) == MapOf(s)[e.key := e]
  {
    forall k
      ensures k in MapOf(s + [e]) <==> k in MapOf(s)[e.key := e]
      ensures k in MapOf(s + [e]) ==> MapOf(s + [e])[k] == MapOf(s)[e.key := e][k]
    {
      FindAppend(s, [e], k);
      FindOne(e, k);
      MapFinds(s, k);
      MapFinds(s + [e], k);
    }
  }

  // ---- Orders -----------------------------------------------------------

  predicate Ordered(s: seq<Entry>) {
    forall i, j :: 0 <= i < j < |s| ==> s[i].key <= s[j].key
  }

  predicate Strict(s: seq<Entry>) {
    forall i, j :: 0 <= i < j < |s| ==> s[i].key < s[j].key
  }

  /** Strictly ascending entries are as many as the keys they are found under. */
  lemma StrictSize(s: seq<Entry>)
    requires Strict(s)
    ensures |MapOf(s)| == |s|
  {
    KeysSize(s);
    forall k
      ensures k in MapOf(s) <==> k in Keys(s)
    {
      FindHolds(s, k);
    }
    assert MapOf(s).Keys == Keys(s);
  }

  lemma {:induction false} KeysSize(s: seq<Entry>)
    requires Strict(s)
    ensures |Keys(s)| == |s|
  {
    if s != [] {
      var last := |s| - 1;
      KeysSize(s[..last]);
      assert s == s[..last] + [s[last]];
      assert Keys(s) == Keys(s[..last]) + {s[last].key};
    }
  }

  /** In strictly ascending entries a key is found where it stands. */
  lemma {:induction false} FindStrict(s: seq<Entry>, i: nat)
    requires Strict(s) && i < |s|
    ensures Find(s, s[i].key) == Some(s[i])
  {
    if i < |s| - 1 {
      FindStrict(s[..|s| - 1], i);
    }
  }

  /** Strictly ascending entries are determined by the map they stand for. */
  lemma StrictUnique(s: seq<Entry>, t: seq<Entry>)
    requires Strict(s) && Strict(t) && forall k :: Find(s, k) == Find(t, k)
    ensures s == t
  {
    forall i | 0 <= i < |s|
      ensures s[i] in t
    {
      FindStrict(s, i);
      FindHolds(t, s[i].key);
    }
    forall i | 0 <= i < |t|
      ensures t[i] in s
    {
      FindStrict(t, i);
      FindHolds(s, t[i].key);
    }
    ListedUnique((x: Entry, y: Entry) => x.key < y.key, s, t);
  }

  // ---- Insertion sort ---------------------------------------------------

  /** Insert past every entry with a key no greater. */
  function StableInsert(s: seq<Entry>, e: Entry): (r: seq<Entry>)
    ensures |r| == |s| + 1
  {
    if s == [] || s[|s| - 1].key <= e.key then s + [e]
    else StableInsert(s[..|s| - 1], e) + [s[|s| - 1]]
  }

  function StableSort(s: seq<Entry>): (r: seq<Entry>)
    ensures |r| == |s|
  {
    if s == [] then [] else StableInsert(StableSort(s[..|s| - 1]), s[|s| - 1])
  }

  lemma {:induction false} StableInsertAt(s: seq<Entry>, e: Entry, j: nat)
    requires j <= |s| && (j == 0 || s[j - 1].key <= e.key)
    requires forall m :: j <= m < |s| ==> s[m].key > e.key
    ensures StableInsert(s, e) == s[..j] + [e] + s[j..]
  {
    if j == |s| {
      assert s[..j] == s && s[j..] == [];
    } else {
      StableInsertAt(s[..|s| - 1], e, j);
      assert s[..|s| - 1][j..] + [s[|s| - 1]] == s[j..];
    }
  }

  lemma {:induction false} StableInsertSound(s: seq<Entry>, e: Entry)
    requires Ordered(s)
    ensures Ordered(StableInsert(s, e))
    ensures forall k :: Find(StableInsert(s, e), k) == Find(s + [e], k)
    ensures forall x :: x in StableInsert(s, e) <==> x == e || x in s
  {
    if !(s == [] || s[|s| - 1].key <= e.key) {
      var rest, last := s[..|s| - 1], s[|s| - 1];
      var shorter := StableInsert(rest, e);
      StableInsertSound(rest, e);
      assert s == rest + [last];
      InsertedBefore(rest, e, last, shorter);
      forall i | 0 <= i < |shorter|
        ensures shorter[i].key <= last.key
      {
        assert shorter[i] in shorter;
      }
      assert forall x :: x in s <==> x == last || x in rest;
    }
  }

  /** Entries of different keys may change places. */
  lemma InsertedBefore(rest: seq<Entry>, e: Entry, last: Entry, shorter: seq<Entry>)
    requires last.key != e.key && forall k :: Find(shorter, k) == Find(rest + [e], k)
    ensures forall k :: Find(shorter + [last], k) == Find(rest + [last] + [e], k)
  {
    forall k
      ensures Find(shorter + [last], k) == Find(rest + [last] + [e], k)
    {
      FindAppend(shorter, [last], k);
      FindAppend(rest, [e], k);
      FindAppend(rest + [last], [e], k);
      FindAppend(rest, [last], k);
      FindOne(last, k);
      FindOne(e, k);
    }
  }

  lemma {:induction false} StableSortSound(s: seq<Entry>)
    ensures Ordered(StableSort(s))
    ensures forall k :: Find(StableSort(s), k) == Find(s, k)
  {
    if s != [] {
      var rest, last := s[..|s| - 1], s[|s| - 1];
      StableSortSound(rest);
      StableInsertSound(StableSort(rest), last);
      assert s == rest + [last];
      forall k
        ensures Find(StableSort(s), k) == Find(s, k)
      {
        FindAppend(StableSort(rest), [last], k);
        FindAppend(rest, [last], k);
      }
    }
  }

  // ---- Sorting by key and insertion index -------------------------------

  datatype Tagged = Tagged(idx: nat, entry: Entry)

  function TagAll(s: seq<Entry>): (t: seq<Tagged>)
    ensures |t| == |s| && forall i :: 0 <= i < |s| ==> t[i] == Tagged(i, s[i])
  {
    seq(|s|, i requires 0 <= i < |s| => Tagged(i, s[i]))
  }

  function Strip(t: seq<Tagged>): (s: seq<Entry>)
    ensures |s| == |t| && forall i :: 0 <= i < |t| ==> s[i] == t[i].entry
  {
    seq(|t|, i requires 0 <= i < |t| => t[i].entry)
  }

  /** `cmp_tagged` puts `a` before `b`. */
  predicate Before(a: Tagged, b: Tagged) {
    a.entry.key < b.entry.key || (a.entry.key == b.entry.key && a.idx < b.idx)
  }

  predicate SortedTags(t: seq<Tagged>) {
    forall i, j :: 0 <= i < j < |t| ==> Before(t[i], t[j])
  }

  /** Insertion sort on tagged entries, which keeps the tags of equal keys in order. */
  function TaggedSort(s: seq<Entry>): (t: seq<Tagged>) {
    if s == [] then [] else TaggedInsert(TaggedSort(s[..|s| - 1]), Tagged(|s| - 1, s[|s| - 1]))
  }

  function TaggedInsert(t: seq<Tagged>, x: Tagged): (r: seq<Tagged>)
    ensures |r| == |t| + 1
  {
    if t == [] || t[|t| - 1].entry.key <= x.entry.key then t + [x]
    else TaggedInsert(t[..|t| - 1], x) + [t[|t| - 1]]
  }

  lemma {:induction false} TaggedInsertStrips(t: seq<Tagged>, x: Tagged)
    ensures Strip(TaggedInsert(t, x)) == StableInsert(Strip(t), x.entry)
  {
    if !(t == [] || t[|t| - 1].entry.key <= x.entry.key) {
      var rest, last := t[..|t| - 1], t[|t| - 1];
      TaggedInsertStrips(rest, x);
      assert Strip(rest) == Strip(t)[..|t| - 1];
      assert Strip(TaggedInsert(rest, x) + [last]) == Strip(TaggedInsert(rest, x)) + [last.entry];
    } else {
      assert Strip(t + [x]) == Strip(t) + [x.entry];
    }
  }

  lemma {:induction false} TaggedInsertOrders(t: seq<Tagged>, x: Tagged)
    requires SortedTags(t) && forall y :: y in t ==> y.idx < x.idx
    ensures SortedTags(TaggedInsert(t, x))
    ensures forall y :: y in TaggedInsert(t, x) <==> y == x || y in t
  {
    if !(t == [] || t[|t| - 1].entry.key <= x.entry.key) {
      var rest, last := t[..|t| - 1], t[|t| - 1];
      TaggedInsertOrders(rest, x);
      var shorter := TaggedInsert(rest, x);
      assert last in t;
      forall i | 0 <= i < |shorter|
        ensures Before(shorter[i], last)
      {
        assert shorter[i] in shorter;
        assert shorter[i] in rest ==> exists j :: 0 <= j < |t| - 1 && t[j] == shorter[i];
      }
      assert forall y :: y in t <==> y == last || y in rest;
    } else {
      if t != [] {
        assert t[|t| - 1] in t;
      }
      forall i | 0 <= i < |t|
        ensures Before(t[i], x)
      {
        assert t[i] in t;
        assert i < |t| - 1 ==> Before(t[i], t[|t| - 1]);
      }
    }
  }

  lemma TaggedInsertSound(t: seq<Tagged>, x: Tagged)
    requires SortedTags(t) && forall y :: y in t ==> y.idx < x.idx
    ensures SortedTags(TaggedInsert(t, x))
    ensures forall y :: y in TaggedInsert(t, x) <==> y == x || y in t
    ensures Strip(TaggedInsert(t, x)) == StableInsert(Strip(t), x.entry)
  {
    TaggedInsertOrders(t, x);
    TaggedInsertStrips(t, x);
  }

  lemma {:induction false} TaggedSortSound(s: seq<Entry>)
    ensures SortedTags(TaggedSort(s)) && Strip(TaggedSort(s)) == StableSort(s)
    ensures forall x :: x in TaggedSort(s) <==> x in TagAll(s)
  {
    if s != [] {
      var rest := s[..|s| - 1];
      var x := Tagged(|s| - 1, s[|s| - 1]);
      TaggedSortSound(rest);
      assert TagAll(s) == TagAll(rest) + [x];
      TaggedInsertSound(TaggedSort(rest), x);
    }
  }

  /** However the tagged entries are sorted, stripping them gives what the stable
      insertion sort gives. */
  lemma TaggedSortAgrees(s: seq<Entry>, t: seq<Tagged>)
    requires SortedTags(t) && forall x :: x in t <==> x in TagAll(s)
    ensures Strip(t) == StableSort(s)
  {
    TaggedSortSound(s);
    ListedUnique(Before, t, TaggedSort(s));
  }

  // ---- Dropping all but the last of equal keys --------------------------

  function Dedup(s: seq<Entry>): (r: seq<Entry>)
    ensures |r| <= |s|
  {
    if s == [] then []
    else if |s| > 1 && s[0].key == s[1].key then Dedup(s[1..])
    else [s[0]] + Dedup(s[1..])
  }

  lemma {:induction false} DedupSound(s: seq<Entry>)
    requires Ordered(s)
    ensures Strict(Dedup(s))
    ensures forall k :: Find(Dedup(s), k) == Find(s, k)
    ensures forall e :: e in Dedup(s) ==> e in s
  {
    if s != [] {
      DedupSound(s[1..]);
      assert s == [s[0]] + s[1..];
      forall k
        ensures Find(Dedup(s), k) == Find(s, k)
      {
        FindAppend([s[0]], s[1..], k);
        FindAppend([s[0]], Dedup(s[1..]), k);
        FindOne(s[0], k);
        if |s| > 1 && s[0].key == s[1].key == k {
          assert s[1] in s[1..];
          FindHolds(s[1..], k);
        }
      }
      if |s| == 1 || s[0].key != s[1].key {
        var rest := Dedup(s[1..]);
        forall i | 0 <= i < |rest|
          ensures s[0].key < rest[i].key
        {
          assert rest[i] in s[1..];
        }
      }
    }
  }

  /** What freezing makes of the entries inserted: strictly ascending, with each
      key's last. */
  lemma FrozenIsMap(s: seq<Entry>)
    ensures var frozen := Dedup(StableSort(s));
            Strict(frozen) && MapOf(frozen) == MapOf(s) && forall k :: Find(frozen, k) == Find(s, k)
  {
    StableSortSound(s);
    DedupSound(StableSort(s));
    SameMap(Dedup(StableSort(s)), s);
  }

  // ---- Union and removal ------------------------------------------------

  /** Merge by key, the right entry winning a tie. */
  function Merge(a: seq<Entry>, b: seq<Entry>): seq<Entry>
    decreases |a| + |b|
  {
    if a == [] then b
    else if b == [] then a
    else if a[0].key < b[0].key then [a[0]] + Merge(a[1..], b)
    else if a[0].key > b[0].key then [b[0]] + Merge(a, b[1..])
    else [b[0]] + Merge(a[1..], b[1..])
  }

  /** The first answer there is. */
  function Or(x: Option<Entry>, y: Option<Entry>): Option<Entry> {
    if x.Some? then x else y
  }

  lemma {:induction false} MergeSound(a: seq<Entry>, b: seq<Entry>, low: nat)
    requires Strict(a) && Strict(b)
    requires (a != [] ==> low <= a[0].key) && (b != [] ==> low <= b[0].key)
    ensures Strict(Merge(a, b)) && forall e :: e in Merge(a, b) ==> low <= e.key
    decreases |a| + |b|
  {
    if a != [] && b != [] {
      var first := if a[0].key < b[0].key then a[0] else b[0];
      var a' := if a[0].key <= b[0].key then a[1..] else a;
      var b' := if b[0].key <= a[0].key then b[1..] else b;
      MergeSound(a', b', first.key + 1);
      assert Merge(a, b) == [first] + Merge(a', b');
      StrictCons(first, Merge(a', b'));
    }
  }

  /** Looking a key up in a merge looks in the right list, then the left. */
  lemma {:induction false} MergeFinds(a: seq<Entry>, b: seq<Entry>, k: nat)
    requires Strict(a) && Strict(b)
    ensures Find(Merge(a, b), k) == Or(Find(b, k), Find(a, k))
    decreases |a| + |b|
  {
    if a != [] && b != [] {
      FindFirst(a, k);
      FindFirst(b, k);
      if a[0].key < b[0].key {
        MergeFinds(a[1..], b, k);
        FindCons(a[0], Merge(a[1..], b), k);
      } else if a[0].key > b[0].key {
        MergeFinds(a, b[1..], k);
        FindCons(b[0], Merge(a, b[1..]), k);
      } else {
        MergeFinds(a[1..], b[1..], k);
        FindCons(b[0], Merge(a[1..], b[1..]), k);
      }
    }
  }

  lemma FindCons(e: Entry, s: seq<Entry>, k: nat)
    ensures Find([e] + s, k) == Or(Find(s, k), if e.key == k then Some(e) else None)
  {
    FindAppend([e], s, k);
    FindOne(e, k);
  }

  lemma StrictCons(e: Entry, s: seq<Entry>)
    requires Strict(s) && forall x :: x in s ==> e.key < x.key
    ensures Strict([e] + s)
  {
    forall i | 0 <= i < |s|
      ensures e.key < s[i].key
    {
      assert s[i] in s;
    }
  }

  /** A key is under the first entry or among the later ones. */
  lemma FindFirst(s: seq<Entry>, k: nat)
    requires Strict(s) && s != []
    ensures Find(s, k) == if s[0].key == k then Some(s[0]) else Find(s[1..], k)
    ensures k <= s[0].key ==> Find(s[1..], k) == None
  {
    assert s == [s[0]] + s[1..];
    FindCons(s[0], s[1..], k);
    FindHolds(s[1..], k);
  }

  /** Union is map override, right over left. */
  lemma UnionIsOverride(a: seq<Entry>, b: seq<Entry>)
    requires Strict(a) && Strict(b)
    ensures Strict(Merge(a, b)) && MapOf(Merge(a, b)) == MapOf(a) + MapOf(b)
  {
    MergeSound(a, b, 0);
    forall k
      ensures k in MapOf(Merge(a, b)) <==> k in MapOf(a) + MapOf(b)
      ensures k in MapOf(Merge(a, b)) ==> MapOf(Merge(a, b))[k] == (MapOf(a) + MapOf(b))[k]
    {
      MergeFinds(a, b, k);
      MapFinds(Merge(a, b), k);
      MapFinds(a, k);
      MapFinds(b, k);
    }
  }

  function Without(s: seq<Entry>, keys: seq<nat>): seq<Entry> {
    if s == [] then []
    else Without(s[..|s| - 1], keys) + if s[|s| - 1].key in keys then [] else [s[|s| - 1]]
  }

  lemma {:induction false} WithoutSound(s: seq<Entry>, keys: seq<nat>)
    requires Strict(s)
    ensures Strict(Without(s, keys)) && |Without(s, keys)| <= |s|
    ensures forall e :: e in Without(s, keys) <==> e in s && e.key !in keys
    ensures forall k :: Find(Without(s, keys), k) == if k in keys then None else Find(s, k)
  {
    if s != [] {
      var rest, last := s[..|s| - 1], s[|s| - 1];
      WithoutSound(rest, keys);
      assert forall e :: e in s <==> e == last || e in rest;
      var kept := if last.key in keys then [] else [last];
      forall k
        ensures Find(Without(s, keys), k) == if k in keys then None else Find(s, k)
      {
        FindAppend(Without(rest, keys), kept, k);
        FindOne(last, k);
      }
      forall i | 0 <= i < |Without(rest, keys)|
        ensures Without(rest, keys)[i].key < last.key
      {
        assert Without(rest, keys)[i] in rest;
      }
    }
  }

  /** Removing keys is map restriction. */
  lemma RemovalIsRestriction(s: seq<Entry>, keys: seq<nat>)
    requires Strict(s)
    ensures Strict(Without(s, keys)) && MapOf(Without(s, keys)) == MapOf(s) - Elements(keys)
  {
    WithoutSound(s, keys);
    forall k
      ensures k in MapOf(Without(s, keys)) <==> k in MapOf(s) - Elements(keys)
      ensures k in MapOf(Without(s, keys)) ==> MapOf(Without(s, keys))[k] == MapOf(s)[k]
    {
      MapFinds(Without(s, keys), k);
      MapFinds(s, k);
    }
  }
}
