/** The open-addressed slot table of the symbol interner as a value: where a
    linear probe goes, and what keeps every symbol findable
    (cbits/nn_symbol.c). */
module Probing {
  import opened Basics

  datatype Slot = Slot(hash: nat, id: nat)

  const EmptySlot := Slot(0, 0)

  // ---- Masking ----------------------------------------------------------

  predicate PowerOfTwo(n: nat) {
    n == 1 || (n > 1 && n % 2 == 0 && PowerOfTwo(n / 2))
  }

  /** Bitwise and of two unsigned numbers. */
  function BitAnd(a: nat, b: nat): nat {
    if a == 0 || b == 0 then 0
    else 2 * BitAnd(a / 2, b / 2) + if a % 2 == 1 && b % 2 == 1 then 1 else 0
  }

  /** Masking by one less than a power of two is the remainder. */
  lemma {:induction false} MaskIsRemainder(h: nat, cap: nat)
    requires PowerOfTwo(cap)
    ensures BitAnd(h, cap - 1) == h % cap
    decreases cap
  {
    if cap == 1 {
      assert BitAnd(h, 0) == 0;
    } else {
      var half := cap / 2;
      MaskIsRemainder(h / 2, half);
      MaskDoubles(h, half);
      assert cap == 2 * half;
    }
  }

  lemma MaskDoubles(h: nat, half: nat)
    requires half > 0 && BitAnd(h / 2, half - 1) == h / 2 % half
    ensures BitAnd(h, 2 * half - 1) == h % (2 * half)
  {
    MaskHalves(h, half);
    HalfRemainder(h, half);
  }

  lemma MaskHalves(h: nat, half: nat)
    requires half > 0
    ensures BitAnd(h, 2 * half - 1) == 2 * BitAnd(h / 2, half - 1) + h % 2
  {
    assert (2 * half - 1) / 2 == half - 1 && (2 * half - 1) % 2 == 1;
  }

  lemma HalfRemainder(h: nat, half: nat)
    requires half > 0
    ensures h % (2 * half) == 2 * (h / 2 % half) + h % 2
  {
    var q, r := h / 2 / half, h / 2 % half;
    assert h == 2 * (q * half + r) + h % 2;
    assert h == q * (2 * half) + (2 * r + h % 2);
    RemainderUnique(h, 2 * half, q, 2 * r + h % 2);
  }

  lemma RemainderUnique(h: nat, n: nat, q: nat, r: nat)
    requires n > 0 && h == q * n + r && r < n
    ensures h % n == r
  {
    var m := h / n - q;
    assert m * n == h / n * n - q * n == r - h % n;
    AtLeastOnce(m, n);
    AtLeastOnce(-m, n);
  }

  lemma AtLeastOnce(m: int, n: nat)
    ensures m >= 1 ==> m * n >= n
    ensures (-m) * n == -(m * n)
  {
  }

  // ---- Probe sequences --------------------------------------------------

  /** The slot `d` probes past `home` in a table of `n`. */
  function At(n: nat, home: nat, d: nat): (i: nat)
    requires home < n && d < n
    ensures i < n
  {
    if home + d < n then home + d else home + d - n
  }

  function Following(n: nat, i: nat): (j: nat)
    requires i < n
    ensures j < n
  {
    if i + 1 == n then 0 else i + 1
  }

  /** How many probes past `home` a slot is. */
  function Distance(n: nat, home: nat, i: nat): (d: nat)
    requires home < n && i < n
    ensures d < n && At(n, home, d) == i
  {
    if home <= i then i - home else i + n - home
  }

  lemma FollowingIsMasked(n: nat, i: nat)
    requires PowerOfTwo(n) && i < n
    ensures BitAnd(i + 1, n - 1) == Following(n, i)
  {
    MaskIsRemainder(i + 1, n);
    RemainderUnique(i + 1, n, if i + 1 == n then 1 else 0, Following(n, i));
  }

  // ---- The table --------------------------------------------------------

  type Hash = Bytes -> nat

  function Home(hash: Hash, text: Bytes, n: nat): (h: nat)
    requires n > 0
    ensures h < n
  {
    hash(text) % n
  }

  /** No slot from `home` up to `d` probes on is empty. */
  ghost predicate Filled(slots: seq<Slot>, home: nat, d: nat)
    requires home < |slots| && d <= |slots|
  {
    forall e :: 0 <= e < d ==> slots[At(|slots|, home, e)].id != 0
  }

  /** A probe from `home` reaches `id` after `d` slots in use. */
  ghost predicate Found(slots: seq<Slot>, home: nat, d: nat, id: nat)
    requires home < |slots|
  {
    d < |slots| && slots[At(|slots|, home, d)].id == id && Filled(slots, home, d)
  }

  /** Symbol `id` is found from its text's home at the distance recorded. */
  ghost predicate Placed(hash: Hash, texts: seq<Bytes>, slots: seq<Slot>, dist: map<nat, nat>, id: nat)
    requires |slots| > 0
  {
    1 <= id <= |texts| && id in dist && Found(slots, Home(hash, texts[id - 1], |slots|), dist[id], id)
  }

  /** A slot in use bears one of the symbols, with its text's hash. */
  ghost predicate Bears(hash: Hash, texts: seq<Bytes>, slots: seq<Slot>, ids: set<nat>, j: nat)
    requires j < |slots|
  {
    var id := slots[j].id;
    id != 0 ==> id in ids && 1 <= id <= |texts| && slots[j].hash == hash(texts[id - 1])
  }

  ghost predicate Differ(slots: seq<Slot>, i: nat, j: nat)
    requires i < |slots| && j < |slots|
  {
    slots[i].id != 0 ==> slots[i].id != slots[j].id
  }

  /** The table holds the symbols `ids` of `texts`, each in one slot, found from
      its home at the distance `dist` records. */
  ghost predicate Table(hash: Hash, texts: seq<Bytes>, slots: seq<Slot>, ids: set<nat>, dist: map<nat, nat>) {
    && |slots| > 0
    && (forall id {:trigger Placed(hash, texts, slots, dist, id)} :: id in ids ==> Placed(hash, texts, slots, dist, id))
    && (forall j {:trigger Bears(hash, texts, slots, ids, j)} :: 0 <= j < |slots| ==> Bears(hash, texts, slots, ids, j))
    && (forall i, j {:trigger Differ(slots, i, j)} :: 0 <= i < j < |slots| ==> Differ(slots, i, j))
  }

  /** Fewer symbols than slots leave an empty slot for a probe to stop at. */
  lemma EmptyExists(hash: Hash, texts: seq<Bytes>, slots: seq<Slot>, ids: set<nat>, dist: map<nat, nat>)
      returns (j: nat)
    requires Table(hash, texts, slots, ids, dist) && |ids| < |slots|
    ensures j < |slots| && slots[j].id == 0
  {
    if k: nat :| k < |slots| && slots[k].id == 0 {
      j := k;
    } else {
      var used := seq(|slots|, i requires 0 <= i < |slots| => slots[i].id);
      forall i, k | 0 <= i < k < |used|
        ensures used[i] != used[k]
      {
        assert Differ(slots, i, k);
      }
      forall i | 0 <= i < |used|
        ensures used[i] in ids
      {
        assert Bears(hash, texts, slots, ids, i);
      }
      DistinctSize(used, ids);
      assert false;
    }
  }

  lemma UsedSlot(hash: Hash, texts: seq<Bytes>, slots: seq<Slot>, ids: set<nat>, dist: map<nat, nat>, j: nat)
    requires Table(hash, texts, slots, ids, dist) && j < |slots| && slots[j].id != 0
    ensures slots[j].id in ids && 1 <= slots[j].id <= |texts| && slots[j].hash == hash(texts[slots[j].id - 1])
  {
    assert Bears(hash, texts, slots, ids, j);
  }

  /** The first `d` slots a probe passed hold other texts. */
  ghost predicate Passed(texts: seq<Bytes>, slots: seq<Slot>, home: nat, d: nat, text: Bytes)
    requires home < |slots| && d <= |slots|
  {
    forall e :: 0 <= e < d ==>
      var id := slots[At(|slots|, home, e)].id; 1 <= id <= |texts| && texts[id - 1] != text
  }

  lemma PassedNext(texts: seq<Bytes>, slots: seq<Slot>, home: nat, d: nat, text: Bytes)
    requires home < |slots| && d < |slots| && Passed(texts, slots, home, d, text)
    requires var id := slots[At(|slots|, home, d)].id; 1 <= id <= |texts| && texts[id - 1] != text
    ensures Passed(texts, slots, home, d + 1, text)
  {
  }

  /** A probe still on slots in use has not reached the empty one. */
  lemma NotAtEmpty(slots: seq<Slot>, home: nat, d: nat, stop: nat)
    requires home < |slots| && stop < |slots| && slots[stop].id == 0
    requires d <= Distance(|slots|, home, stop) && slots[At(|slots|, home, d)].id != 0
    ensures d < Distance(|slots|, home, stop) && d + 1 < |slots|
    ensures At(|slots|, home, d + 1) == Following(|slots|, At(|slots|, home, d))
  {
  }

  /** A probe that meets no match before an empty slot proves the text absent. */
  lemma AbsentAtEmpty(hash: Hash, texts: seq<Bytes>, slots: seq<Slot>, ids: set<nat>, dist: map<nat, nat>, text: Bytes,
                      d: nat)
    requires Table(hash, texts, slots, ids, dist) && d < |slots|
    requires var home := Home(hash, text, |slots|);
             slots[At(|slots|, home, d)].id == 0 && Passed(texts, slots, home, d, text)
    ensures Filled(slots, Home(hash, text, |slots|), d)
    ensures forall id :: id in ids && 1 <= id <= |texts| ==> texts[id - 1] != text
  {
    forall id | id in ids && 1 <= id <= |texts|
      ensures texts[id - 1] != text
    {
      assert Placed(hash, texts, slots, dist, id);
    }
  }

  /** Filling the empty slot a probe stopped at keeps every symbol findable. */
  lemma InsertKeeps(hash: Hash, texts: seq<Bytes>, slots: seq<Slot>, ids: set<nat>, dist: map<nat, nat>, id: nat,
                    d: nat)
    requires Table(hash, texts, slots, ids, dist)
    requires 1 <= id <= |texts| && id !in ids && d < |slots|
    requires var home := Home(hash, texts[id - 1], |slots|);
             slots[At(|slots|, home, d)].id == 0 && Filled(slots, home, d)
    ensures var at := At(|slots|, Home(hash, texts[id - 1], |slots|), d);
            Table(hash, texts, slots[at := Slot(hash(texts[id - 1]), id)], ids + {id}, dist[id := d])
  {
    var n := |slots|;
    var at := At(n, Home(hash, texts[id - 1], n), d);
    var slots', dist' := slots[at := Slot(hash(texts[id - 1]), id)], dist[id := d];
    forall k | k in ids + {id}
      ensures Placed(hash, texts, slots', dist', k)
    {
      assert k != id ==> Placed(hash, texts, slots, dist, k);
      var home := Home(hash, texts[k - 1], n);
      assert forall e :: 0 <= e < dist'[k] ==> slots[At(n, home, e)].id != 0;
      assert forall e :: 0 <= e < dist'[k] ==> slots'[At(n, home, e)].id != 0;
    }
    forall j | 0 <= j < n
      ensures Bears(hash, texts, slots', ids + {id}, j)
    {
      assert Bears(hash, texts, slots, ids, j);
    }
    forall i, j | 0 <= i < j < n
      ensures Differ(slots', i, j)
    {
      assert Differ(slots, i, j) && Bears(hash, texts, slots, ids, i) && Bears(hash, texts, slots, ids, j);
    }
  }

  /** A new symbol's text, put in the empty slot its probe found, keeps the table. */
  lemma CommitKeeps(hash: Hash, texts: seq<Bytes>, slots: seq<Slot>, ids: set<nat>, dist: map<nat, nat>, text: Bytes,
                    idx: nat, d: nat)
    requires Table(hash, texts, slots, ids, dist) && |texts| + 1 !in ids && d < |slots|
    requires idx == At(|slots|, Home(hash, text, |slots|), d)
    requires slots[idx].id == 0 && Filled(slots, Home(hash, text, |slots|), d)
    ensures var symbol := |texts| + 1;
            Table(hash, texts + [text], slots[idx := Slot(hash(text), symbol)], ids + {symbol}, dist[symbol := d])
  {
    AppendKeeps(hash, texts, slots, ids, dist, text);
    InsertKeeps(hash, texts + [text], slots, ids, dist, |texts| + 1, d);
  }

  /** A longer list of texts changes nothing about the symbols there are. */
  lemma AppendKeeps(hash: Hash, texts: seq<Bytes>, slots: seq<Slot>, ids: set<nat>, dist: map<nat, nat>, text: Bytes)
    requires Table(hash, texts, slots, ids, dist)
    ensures Table(hash, texts + [text], slots, ids, dist)
  {
    forall id | id in ids
      ensures Placed(hash, texts + [text], slots, dist, id)
    {
      assert Placed(hash, texts, slots, dist, id);
    }
    forall j | 0 <= j < |slots|
      ensures Bears(hash, texts + [text], slots, ids, j)
    {
      assert Bears(hash, texts, slots, ids, j);
    }
  }

  lemma EmptyTable(hash: Hash, texts: seq<Bytes>, slots: seq<Slot>)
    requires |slots| > 0 && forall j :: 0 <= j < |slots| ==> slots[j] == EmptySlot
    ensures Table(hash, texts, slots, {}, map[])
  {
  }
}
