/** Attribute sets as arrays (cbits/nn_attrset.c): keys and positions in one
    block, values beside them, sorted in place.  The allocator's answers are parameters. */
module AttrSets {
  import opened Basics
  import opened AttrEntries

  const MAX_ENTRIES: nat := 0xFFFF_FFFF
  const NOT_FOUND: nat := 0xFFFF_FFFF
  const NULL: nat := 0
  const SMALL: nat := 64

  /** What the allocator says to a growth: to the larger values array, then to
      the larger block of keys and positions. */
  datatype Grants = Grants(values: bool, names: bool)

  /** The capacity after one growth. */
  function NextCapacity(capacity: nat): nat {
    if 2 * capacity > MAX_ENTRIES then MAX_ENTRIES else 2 * capacity
  }

  /** `realloc`: a longer block that starts with the old one. */
  method Reallocated(block: array<nat>, length: nat) returns (grown: array<nat>)
    requires block.Length <= length
    ensures fresh(grown) && grown.Length == length && grown[..block.Length] == block[..]
  {
    var kept := block[..];
    grown := new nat[length](i => if 0 <= i < |kept| then kept[i] else 0);
  }

  class AttrSet {
    /** `capacity` keys, then as many positions. */
    var block: array<nat>
    var values: array<nat>
    var count: nat
    var capacity: nat
    var frozen: bool

    /** The entries held, in order. */
    ghost var contents: seq<Entry>

    /** Where the entries are.  A values array left larger by a growth that then
        failed is kept. */
    ghost predicate Layout()
      reads this, block, values
    {
      && block != values
      && block.Length == 2 * capacity
      && count <= capacity <= MAX_ENTRIES && 0 < capacity
      && capacity <= values.Length <= NextCapacity(capacity)
      && |contents| == count
      && forall i {:trigger block[i]} :: 0 <= i < count ==>
           contents[i] == Entry(block[i], block[capacity + i], values[i])
    }

    ghost predicate Valid()
      reads this, block, values
    {
      Layout() && (frozen ==> Strict(contents))
    }

    /** An empty set, or nothing when memory is not granted; a capacity of 0 asks
        for the default. */
    static method New(capacity: nat, granted: bool) returns (set_: AttrSet?)
      requires capacity <= MAX_ENTRIES
      ensures set_ != null <==> granted
      ensures granted ==>
                && fresh(set_) && fresh(set_.block) && fresh(set_.values)
                && set_.Valid() && !set_.frozen && set_.contents == []
                && set_.capacity == if capacity == 0 then 8 else capacity
    {
      if !granted { return null; }
      set_ := new AttrSet.Empty(if capacity == 0 then 8 else capacity);
    }

    constructor Empty(capacity: nat)
      requires 0 < capacity <= MAX_ENTRIES
      ensures fresh(block) && fresh(values)
      ensures Valid() && !frozen && contents == [] && this.capacity == capacity
    {
      block := new nat[2 * capacity](_ => 0);
      values := new nat[capacity](_ => 0);
      count, this.capacity, frozen, contents := 0, capacity, false, [];
    }

    /** The entry at an index. */
    method Get(i: nat) returns (e: Entry)
      requires Layout() && i < count
      ensures e == contents[i]
    {
      e := Entry(block[i], block[capacity + i], values[i]);
    }

    method KeyAt(i: nat) returns (key: nat)
      requires Layout() && i < count
      ensures key == contents[i].key
    {
      key := block[i];
    }

    /** Overwrite the entry at an index. */
    method Put(i: nat, e: Entry)
      requires Layout() && i < count
      modifies this`contents, block, values
      ensures Layout() && contents == old(contents)[i := e]
    {
      block[i] := e.key;
      block[capacity + i] := e.pos;
      values[i] := e.value;
      contents := contents[i := e];
    }

    // ---- Construction ---------------------------------------------------

    /** Double the capacity, up to the ceiling.  The values grow first; the
        positions move up to sit after the new capacity's keys. */
    method Grow(grants: Grants) returns (ok: bool)
      requires Layout()
      modifies this`block, this`values, this`capacity
      ensures Layout() && contents == old(contents)
      ensures ok <==> old(capacity) < MAX_ENTRIES && grants.values && grants.names
      ensures if ok then capacity == NextCapacity(old(capacity)) > old(capacity) else capacity == old(capacity)
      ensures block == old(block) || fresh(block)
      ensures values == old(values) || fresh(values)
    {
      if capacity >= MAX_ENTRIES { return false; }
      var newCap := NextCapacity(capacity);
      if !grants.values { return false; }
      var newValues := Reallocated(values, newCap);
      assert forall i :: 0 <= i < count ==> newValues[i] == newValues[..values.Length][i] == values[i];
      values := newValues;
      if !grants.names { return false; }
      var newBlock := Widened(newCap);
      block, capacity := newBlock, newCap;
      ok := true;
    }

    /** The block with room for more keys: the positions move up past them. */
    method Widened(newCap: nat) returns (newBlock: array<nat>)
      requires Layout() && capacity < newCap
      ensures fresh(newBlock) && newBlock.Length == 2 * newCap
      ensures forall i {:trigger newBlock[i]} :: 0 <= i < count ==>
              newBlock[i] == block[i] && newBlock[newCap + i] == block[capacity + i]
    {
      newBlock := Reallocated(block, 2 * newCap);
      assert forall i :: 0 <= i < block.Length ==> newBlock[i] == newBlock[..block.Length][i] == block[i];
      forall k | 0 <= k < count {
        newBlock[newCap + k] := newBlock[capacity + k];
      }
    }

    /** Append an entry, or change nothing when the set is full and cannot grow. */
    method Insert(key: nat, value: nat, pos: nat, grants: Grants) returns (ok: bool)
      requires Layout() && !frozen
      modifies this`block, this`values, this`capacity, this`count, this`contents, block, values
      ensures Layout()
      ensures contents == if ok then old(contents) + [Entry(key, pos, value)] else old(contents)
      ensures ok <==> old(count < capacity) || (old(capacity) < MAX_ENTRIES && grants.values && grants.names)
      ensures !ok || old(count < capacity) ==> capacity == old(capacity)
      ensures block == old(block) || fresh(block)
      ensures values == old(values) || fresh(values)
    {
      if count >= capacity {
        ok := Grow(grants);
        if !ok { return; }
      }
      Append(Entry(key, pos, value));
      ok := true;
    }

    method Append(e: Entry)
      requires Layout() && count < capacity
      modifies this`count, this`contents, block, values
      ensures Layout() && contents == old(contents) + [e]
    {
      block[count] := e.key;
      block[capacity + count] := e.pos;
      values[count] := e.value;
      count := count + 1;
      contents := contents + [e];
    }

    // ---- Freezing -------------------------------------------------------

    /** Sort by key, equal keys in the order they were inserted, moving entries up
        one place at a time. */
    method InsertionSort()
      requires Layout()
      modifies this`contents, block, values
      ensures Layout() && contents == StableSort(old(contents))
    {
      ghost var s := contents;
      if count == 0 {
        return;
      }
      SortStart(s);
      for i := 1 to count
        invariant Layout() && count == |s| && contents == SortedTo(s, i)
      {
        SortNext(s, i);
        SinkEntry(i, StableSort(s[..i]), s[i..]);
      }
      SortEnd(s);
    }

    /** Move the entry at `i` down past every greater key of the sorted prefix. */
    method SinkEntry(i: nat, ghost sorted: seq<Entry>, ghost rest: seq<Entry>)
      requires Layout() && 0 < i < count && |sorted| == i && |rest| == count - i
      requires contents == sorted + rest
      modifies this`contents, block, values
      ensures Layout() && contents == StableInsert(sorted, rest[0]) + rest[1..]
    {
      var e := Get(i);
      var j := i;
      ghost var hole := e;
      while j > 0 && block[j - 1] > e.key
        invariant Layout() && j <= i && contents == Lifted(sorted, j, hole, rest[1..])
        invariant forall m :: j <= m < i ==> sorted[m].key > e.key
      {
        var above := Get(j - 1);
        LiftMore(sorted, j, hole, above, rest[1..]);
        hole := above;
        Put(j, above);
        j := j - 1;
      }
      assert j > 0 ==> block[j - 1] == contents[j - 1].key == sorted[j - 1].key;
      StableInsertAt(sorted, e, j);
      Put(j, e);
      LiftFilled(sorted, j, hole, e, rest[1..]);
    }

    /** Tag each entry with its insertion index, `qsort` by key and then index,
        and strip the tags.  Nothing changes when the tags find no memory. */
    method TaggedSortInPlace(granted: bool) returns (ok: bool)
      requires Layout()
      modifies this`contents, block, values
      ensures ok <==> granted
      ensures Layout() && contents == if ok then StableSort(old(contents)) else old(contents)
    {
      if !granted { return false; }
      ghost var s := contents;
      var tagged := new Tagged[count](_ => Tagged(0, Entry(0, 0, 0)));
      FillTags(tagged);
      QSort(tagged);
      TaggedSortAgrees(s, tagged[..]);
      StripTags(tagged);
      ok := true;
    }

    method FillTags(tagged: array<Tagged>)
      requires Layout() && tagged.Length == count
      modifies tagged
      ensures tagged[..] == TagAll(contents)
    {
      ghost var s := contents;
      for i := 0 to count
        invariant forall k :: 0 <= k < i ==> tagged[k] == Tagged(k, s[k])
      {
        var e := Get(i);
        tagged[i] := Tagged(i, e);
      }
      assert tagged[..] == TagAll(s);
    }

    method StripTags(tagged: array<Tagged>)
      requires Layout() && tagged.Length == count
      modifies this`contents, block, values
      ensures Layout() && contents == Strip(tagged[..])
    {
      ghost var t := tagged[..];
      for i := 0 to count
        invariant Layout()
        invariant forall k :: 0 <= k < i ==> contents[k] == t[k].entry
      {
        Put(i, tagged[i].entry);
      }
      assert contents == Strip(t);
    }

    /** Keep the last entry of each run of equal keys, closing the gaps. */
    method DedupInPlace()
      requires Layout()
      modifies this`count, this`contents, block, values
      ensures Layout() && contents == Dedup(old(contents))
    {
      ghost var s := contents;
      var write := 0;
      for read := 0 to count
        invariant Layout() && count == |s| && Deduped(s, contents, write, read)
      {
        DedupNext(s, contents, write, read);
        var repeated := KeyRepeats(read);
        if !repeated {
          if write != read {
            var e := Get(read);
            Put(write, e);
          }
          write := write + 1;
        }
      }
      DedupEnd(s, contents, write);
      Truncate(write);
    }

    /** Whether the next entry has the same key. */
    method KeyRepeats(i: nat) returns (repeated: bool)
      requires Layout() && i < count
      ensures repeated <==> i + 1 < count && contents[i].key == contents[i + 1].key
    {
      if i + 1 == count { return false; }
      var key := KeyAt(i);
      var next := KeyAt(i + 1);
      repeated := key == next;
    }

    method Truncate(n: nat)
      requires Layout() && n <= count
      modifies this`count, this`contents
      ensures Layout() && contents == old(contents)[..n]
    {
      count, contents := n, contents[..n];
    }

    /** Sort by symbol and keep each key's last entry; then only lookups remain.
        The order is the same whether or not the tags are granted memory. */
    method Freeze(granted: bool)
      requires Valid()
      modifies this`count, this`frozen, this`contents, block, values
      ensures Valid() && frozen
      ensures contents == if old(frozen) then old(contents) else Dedup(StableSort(old(contents)))
      ensures MapOf(contents) == MapOf(old(contents))
    {
      if frozen { return; }
      ghost var s := contents;
      FrozenIsMap(s);
      if count <= 1 {
        FewAreFrozen(s);
        frozen := true;
        return;
      }
      SortInPlace(granted);
      DedupInPlace();
      frozen := true;
    }

    /** Small sets sort in place; large ones by tags, or in place after all. */
    method SortInPlace(granted: bool)
      requires Layout()
      modifies this`contents, block, values
      ensures Layout() && contents == StableSort(old(contents))
    {
      if count <= SMALL {
        InsertionSort();
      } else {
        var ok := TaggedSortInPlace(granted);
        if !ok {
          InsertionSort();
        }
      }
    }

    // ---- Lookup ---------------------------------------------------------

    /** Binary search: the index of a key, or `NOT_FOUND`, which no index reaches. */
    method Index(key: nat) returns (idx: nat)
      requires Valid() && frozen
      ensures if idx == NOT_FOUND then key !in Keys(contents) else idx < count && contents[idx].key == key
    {
      var lo, hi := 0, count;
      while lo < hi
        invariant lo <= hi <= count
        invariant forall i :: 0 <= i < lo ==> contents[i].key < key
        invariant forall i :: hi <= i < count ==> contents[i].key > key
      {
        var mid := lo + (hi - lo) / 2;
        assert contents[mid].key == block[mid];
        if block[mid] < key {
          lo := mid + 1;
        } else if block[mid] > key {
          hi := mid;
        } else {
          return mid;
        }
      }
      idx := NOT_FOUND;
    }

    /** The value last inserted under a key, or `NULL`. */
    method Lookup(key: nat) returns (value: nat)
      requires Valid() && frozen
      ensures value == if key in MapOf(contents) then MapOf(contents)[key].value else NULL
    {
      var idx := Index(key);
      MapFinds(contents, key);
      FindHolds(contents, key);
      if idx == NOT_FOUND { return NULL; }
      FindStrict(contents, idx);
      assert contents[idx] == Entry(block[idx], block[capacity + idx], values[idx]);
      return values[idx];
    }

    /** The position that came with it. */
    method Position(idx: nat) returns (pos: nat)
      requires Valid() && frozen && idx < count
      ensures var key := contents[idx].key; key in MapOf(contents) && MapOf(contents)[key].pos == pos
    {
      FindStrict(contents, idx);
      MapFinds(contents, contents[idx].key);
      pos := block[capacity + idx];
      assert contents[idx] == Entry(block[idx], pos, values[idx]);
    }

    // ---- Set operations -------------------------------------------------

    /** Right-biased union, or nothing: exactly when its memory is not granted or
        it has more keys than a set can hold.  It never asks to grow. */
    static method Union(a: AttrSet, b: AttrSet, granted: bool, grants: Grants) returns (result: AttrSet?)
      requires a.Valid() && b.Valid() && a.frozen && b.frozen
      ensures result != null <==> granted && |MapOf(a.contents) + MapOf(b.contents)| <= MAX_ENTRIES
      ensures result != null ==>
                && fresh(result) && result.Valid() && result.frozen
                && MapOf(result.contents) == MapOf(a.contents) + MapOf(b.contents)
    {
      var total := a.count + b.count;
      result := New(if total > MAX_ENTRIES then MAX_ENTRIES else total, granted);
      if result == null { return; }
      var ok := result.MergeFrom(a, b, grants);
      if !ok { return null; }
    }

    /** Become the frozen union of two sets, if there is room for it. */
    method MergeFrom(a: AttrSet, b: AttrSet, grants: Grants) returns (ok: bool)
      requires Growing() && contents == [] && a.Layout() && b.Layout() && Apart(a) && Apart(b)
      requires Sized(a.count + b.count) && Strict(a.contents) && Strict(b.contents)
      modifies this, block, values
      ensures block == old(block) || fresh(block)
      ensures values == old(values) || fresh(values)
      ensures ok <==> |MapOf(a.contents) + MapOf(b.contents)| <= MAX_ENTRIES
      ensures ok ==> Valid() && frozen && MapOf(contents) == MapOf(a.contents) + MapOf(b.contents)
    {
      ghost var left, right := a.contents, b.contents;
      ok := AddBoth(a, b, grants);
      MergeMeans(left, right);
      if ok {
        MarkFrozen();
      }
    }

    /** Append the merge of two sets: first while both last, then the rest of each. */
    method AddBoth(a: AttrSet, b: AttrSet, grants: Grants) returns (ok: bool)
      requires Growing() && contents == [] && a.Layout() && b.Layout() && Apart(a) && Apart(b)
      requires Sized(a.count + b.count)
      modifies this, block, values
      ensures Growing() && (block == old(block) || fresh(block)) && (values == old(values) || fresh(values))
      ensures ok <==> |Merge(a.contents, b.contents)| <= MAX_ENTRIES
      ensures ok ==> contents == Merge(a.contents, b.contents)
    {
      ghost var left, right := a.contents, b.contents;
      var ia, ib;
      ok, ia, ib := AddMerged(a, b, grants);
      if !ok { return; }
      ok := AddRests(a, ia, b, ib, grants);
      MergeTail(left[ia..], right[ib..]);
    }

    /** Append what two sets have left. */
    method AddRests(a: AttrSet, ia: nat, b: AttrSet, ib: nat, grants: Grants) returns (ok: bool)
      requires Growing() && a.Layout() && b.Layout() && Apart(a) && Apart(b) && ia <= a.count && ib <= b.count
      requires Sized(count + (a.count - ia) + (b.count - ib))
      modifies this, block, values
      ensures Growing() && (block == old(block) || fresh(block)) && (values == old(values) || fresh(values))
      ensures ok <==> old(count) + (a.count - ia) + (b.count - ib) <= MAX_ENTRIES
      ensures ok ==> contents == old(contents) + (a.contents[ia..] + b.contents[ib..])
    {
      ghost var before, left, right := contents, a.contents[ia..], b.contents[ib..];
      ok := AddRest(a, ia, grants);
      if !ok { return; }
      ok := AddRest(b, ib, grants);
      assert ok ==> contents == before + (left + right);
    }

    /** As much room as `n` entries take, or as a set can ever have. */
    predicate Sized(n: nat)
      reads this
    {
      n <= capacity || capacity == MAX_ENTRIES
    }

    /** A set still being built. */
    ghost predicate Growing()
      reads this, block, values
    {
      Layout() && !frozen
    }

    /** No array in common with another set. */
    ghost predicate Apart(other: AttrSet)
      reads this, other
    {
      this != other && {block, values} !! {other.block, other.values}
    }

    /** The next entry in key order of what two sets have left, the second's where
        they share a key, and where to go on from. */
    static method NextMerged(a: AttrSet, b: AttrSet, ia: nat, ib: nat) returns (next: Entry, ia': nat, ib': nat)
      requires a.Layout() && b.Layout() && ia < a.count && ib < b.count
      ensures ia <= ia' <= a.count && ib <= ib' <= b.count && ia + ib < ia' + ib'
      ensures Merge(a.contents[ia..], b.contents[ib..]) == [next] + Merge(a.contents[ia'..], b.contents[ib'..])
    {
      var ea := a.Get(ia);
      var eb := b.Get(ib);
      next, ia', ib' := eb, ia, ib;
      assert a.contents[ia..][1..] == a.contents[ia + 1..] && b.contents[ib..][1..] == b.contents[ib + 1..];
      if ea.key < eb.key {
        next, ia' := ea, ia + 1;
      } else if ea.key > eb.key {
        ib' := ib + 1;
      } else {
        ia', ib' := ia + 1, ib + 1;
      }
    }

    /** Append two sets' entries in key order while both have some left, the
        second's alone where they share a key. */
    method AddMerged(a: AttrSet, b: AttrSet, grants: Grants) returns (ok: bool, ia: nat, ib: nat)
      requires Growing() && contents == [] && a.Layout() && b.Layout() && Apart(a) && Apart(b)
      requires Sized(a.count + b.count)
      modifies this, block, values
      ensures Growing() && (block == old(block) || fresh(block)) && (values == old(values) || fresh(values))
      ensures !ok ==> |Merge(a.contents, b.contents)| > MAX_ENTRIES
      ensures ok ==>
                && ia <= a.count && ib <= b.count && (ia == a.count || ib == b.count)
                && Sized(count + (a.count - ia) + (b.count - ib))
                && contents + Merge(a.contents[ia..], b.contents[ib..]) == Merge(a.contents, b.contents)
    {
      ghost var left, right := a.contents, b.contents;
      ia, ib := 0, 0;
      assert left[0..] == left && right[0..] == right;
      while ia < a.count && ib < b.count
        invariant ia <= a.count && ib <= b.count
        invariant a.Layout() && b.Layout() && a.contents == left && b.contents == right
        invariant Growing() && (block == old(block) || fresh(block)) && (values == old(values) || fresh(values))
        invariant contents + Merge(left[ia..], right[ib..]) == Merge(left, right)
        invariant count <= ia + ib && capacity == old(capacity)
        decreases a.count - ia + b.count - ib
      {
        ghost var before, rest := contents, Merge(left[ia..], right[ib..]);
        var next;
        next, ia, ib := NextMerged(a, b, ia, ib);
        assert before + rest == before + [next] + Merge(left[ia..], right[ib..]);
        ok := Insert(next.key, next.value, next.pos, grants);
        if !ok { return; }
      }
      ok := true;
    }

    /** Append another set's entries from an index on. */
    method AddRest(source: AttrSet, from: nat, grants: Grants) returns (ok: bool)
      requires Growing() && source.Layout() && from <= source.count && Apart(source)
      requires Sized(count + (source.count - from))
      modifies this, block, values
      ensures Growing() && (block == old(block) || fresh(block)) && (values == old(values) || fresh(values))
      ensures capacity == old(capacity)
      ensures ok <==> old(count) + (source.count - from) <= MAX_ENTRIES
      ensures ok ==> contents == old(contents) + source.contents[from..]
    {
      ghost var s, before := source.contents, contents;
      for i := from to source.count
        invariant source.Layout() && source.contents == s
        invariant Growing() && (block == old(block) || fresh(block)) && (values == old(values) || fresh(values))
        invariant contents == before + s[from..i]
        invariant capacity == old(capacity)
      {
        var e := source.Get(i);
        ok := Insert(e.key, e.value, e.pos, grants);
        if !ok { return; }
        assert s[from..i + 1] == s[from..i] + [e];
      }
      ok := true;
    }

    method MarkFrozen()
      requires Layout() && Strict(contents)
      modifies this`frozen
      ensures Valid() && frozen && contents == old(contents)
    {
      frozen := true;
    }

    /** A set with the given keys taken out, or nothing when memory is not granted.
        It never asks to grow. */
    static method RemoveKeys(source: AttrSet, keys: array<nat>, granted: bool, grants: Grants)
      returns (result: AttrSet?)
      requires source.Valid() && source.frozen
      ensures result != null <==> granted
      ensures granted ==>
                && fresh(result) && result.Valid() && result.frozen
                && MapOf(result.contents) == MapOf(source.contents) - Elements(keys[..])
    {
      result := New(source.count, granted);
      if result == null { return; }
      var ok := result.AddWithout(source, keys, grants);
      if !ok { return null; }
      RemovalIsRestriction(source.contents, keys[..]);
      result.MarkFrozen();
    }

    /** Append another set's entries but those under the given keys. */
    method AddWithout(source: AttrSet, keys: array<nat>, grants: Grants) returns (ok: bool)
      requires Growing() && contents == [] && source.Layout() && Apart(source) && keys != block && keys != values
      requires source.count <= capacity
      modifies this, block, values
      ensures Growing() && (block == old(block) || fresh(block)) && (values == old(values) || fresh(values))
      ensures ok && contents == Without(source.contents, keys[..])
    {
      ghost var s, removed := source.contents, keys[..];
      for i := 0 to source.count
        invariant source.Layout() && source.contents == s && keys[..] == removed
        invariant Growing() && (block == old(block) || fresh(block)) && (values == old(values) || fresh(values))
        invariant contents == Without(s[..i], removed) && count <= i
        invariant capacity == old(capacity)
      {
        WithoutNext(s, i, removed);
        var e := source.Get(i);
        ok := AddUnlessListed(e, keys, grants);
        if !ok { return; }
      }
      assert s[..source.count] == s;
      ok := true;
    }

    method AddUnlessListed(e: Entry, keys: array<nat>, grants: Grants) returns (ok: bool)
      requires Growing() && keys != block && keys != values && count < capacity
      modifies this, block, values
      ensures Growing() && (block == old(block) || fresh(block)) && (values == old(values) || fresh(values))
      ensures ok && capacity == old(capacity)
      ensures contents == old(contents) + if e.key in keys[..] then [] else [e]
    {
      var skip := Contains(keys, e.key);
      ok := true;
      if !skip {
        ok := Insert(e.key, e.value, e.pos, grants);
      }
    }
  }

  method Contains(keys: array<nat>, key: nat) returns (found: bool)
    ensures found <==> key in keys[..]
  {
    for j := 0 to keys.Length
      invariant key !in keys[..j]
    {
      if keys[j] == key {
        assert keys[..][j] == key;
        return true;
      }
    }
    assert keys[..keys.Length] == keys[..];
    found := false;
  }

  /** The first entries sorted, the others as they were. */
  function SortedTo(s: seq<Entry>, i: nat): (r: seq<Entry>)
    requires i <= |s|
    ensures |r| == |s|
  {
    StableSort(s[..i]) + s[i..]
  }

  lemma SortStart(s: seq<Entry>)
    requires s != []
    ensures SortedTo(s, 1) == s
  {
    assert s[..1][..0] == [] && StableSort(s[..1]) == [s[0]];
  }

  lemma SortNext(s: seq<Entry>, i: nat)
    requires i < |s|
    ensures SortedTo(s, i + 1) == StableInsert(StableSort(s[..i]), s[i..][0]) + s[i..][1..]
  {
    assert s[..i + 1][..i] == s[..i] && s[i..][1..] == s[i + 1..];
  }

  lemma SortEnd(s: seq<Entry>)
    ensures SortedTo(s, |s|) == StableSort(s)
  {
    assert s[..|s|] == s && s[|s|..] == [];
  }

  /** The entries before `write` are those kept so far, with those from `read` on
      still to do. */
  ghost predicate Deduped(s: seq<Entry>, now: seq<Entry>, write: nat, read: nat) {
    && write <= read <= |s| == |now|
    && now[read..] == s[read..]
    && now[..write] + Dedup(s[read..]) == Dedup(s)
  }

  lemma DedupNext(s: seq<Entry>, now: seq<Entry>, write: nat, read: nat)
    requires Deduped(s, now, write, read) && read < |s|
    ensures if read + 1 < |s| && now[read].key == now[read + 1].key then Deduped(s, now, write, read + 1)
            else Deduped(s, now[write := now[read]], write + 1, read + 1)
  {
    var next := now[write := now[read]];
    assert now[read] == now[read..][0] == s[read] && s[read..][1..] == s[read + 1..];
    assert read + 1 < |s| ==> now[read + 1] == now[read..][1] == s[read..][1];
    assert now[read + 1..] == now[read..][1..] && next[read + 1..] == now[read + 1..];
    assert next[..write + 1] == now[..write] + [s[read]];
    assert now[..write] + ([s[read]] + Dedup(s[read + 1..])) == next[..write + 1] + Dedup(s[read + 1..]);
  }

  lemma DedupEnd(s: seq<Entry>, now: seq<Entry>, write: nat)
    requires Deduped(s, now, write, |s|)
    ensures now[..write] == Dedup(s)
  {
    assert s[|s|..] == [];
  }

  lemma WithoutNext(s: seq<Entry>, i: nat, keys: seq<nat>)
    requires i < |s|
    ensures Without(s[..i + 1], keys) == Without(s[..i], keys) + if s[i].key in keys then [] else [s[i]]
  {
    assert s[..i + 1][..i] == s[..i];
  }

  lemma MergeMeans(a: seq<Entry>, b: seq<Entry>)
    requires Strict(a) && Strict(b)
    ensures Strict(Merge(a, b)) && MapOf(Merge(a, b)) == MapOf(a) + MapOf(b)
    ensures |Merge(a, b)| == |MapOf(a) + MapOf(b)|
  {
    UnionIsOverride(a, b);
    StrictSize(Merge(a, b));
  }

  /** With one side used up, what is left of the other is the rest of the merge. */
  lemma MergeTail(a: seq<Entry>, b: seq<Entry>)
    requires a == [] || b == []
    ensures Merge(a, b) == a + b
  {
  }

  lemma FewAreFrozen(s: seq<Entry>)
    requires |s| <= 1
    ensures Dedup(StableSort(s)) == s
  {
    if |s| == 1 {
      assert s[..0] == [];
    }
  }

  /** C's `qsort`, of which only this contract is used. */
  method QSort(tagged: array<Tagged>)
    requires forall i, j :: 0 <= i < j < tagged.Length ==> tagged[i].idx < tagged[j].idx
    modifies tagged
    ensures SortedTags(tagged[..])
    ensures forall x :: x in tagged[..] <==> x in old(tagged[..])
  {
    ghost var s := tagged[..];
    var sorted := [];
    for i := 0 to tagged.Length
      invariant tagged[..] == s && |sorted| == i && SortedTags(sorted)
      invariant forall x :: x in sorted <==> x in s[..i]
    {
      forall y | y in sorted
        ensures y.idx < s[i].idx
      {
        var k :| 0 <= k < i && s[k] == y;
      }
      TaggedInsertSound(sorted, tagged[i]);
      sorted := TaggedInsert(sorted, tagged[i]);
      assert s[..i + 1] == s[..i] + [s[i]];
    }
    forall i | 0 <= i < tagged.Length {
      tagged[i] := sorted[i];
    }
    assert tagged[..] == sorted && s[..tagged.Length] == s;
  }

  /** A list with its entries from `j` on moved up one place, something left in the gap. */
  function Lifted(sorted: seq<Entry>, j: nat, hole: Entry, rest: seq<Entry>): (r: seq<Entry>)
    requires j <= |sorted|
    ensures |r| == |sorted| + 1 + |rest| && (j > 0 ==> r[j - 1] == sorted[j - 1])
  {
    sorted[..j] + [hole] + sorted[j..] + rest
  }

  /** Moving one more entry up leaves a copy of it below. */
  lemma LiftMore(sorted: seq<Entry>, j: nat, hole: Entry, above: Entry, rest: seq<Entry>)
    requires 0 < j <= |sorted| && above == sorted[j - 1]
    ensures Lifted(sorted, j, hole, rest)[j := above] == Lifted(sorted, j - 1, above, rest)
  {
    assert sorted[..j] == sorted[..j - 1] + [above];
    assert sorted[j - 1..] == [above] + sorted[j..];
  }

  lemma LiftFilled(sorted: seq<Entry>, j: nat, hole: Entry, e: Entry, rest: seq<Entry>)
    requires j <= |sorted|
    ensures Lifted(sorted, j, hole, rest)[j := e] == sorted[..j] + [e] + sorted[j..] + rest
  {
  }
}
