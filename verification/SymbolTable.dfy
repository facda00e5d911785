/** The symbol interner (cbits/nn_symbol.c, cbits/nn_symbol.h).

    Texts are byte strings, IDs are 1-based.  The hash is any function of the
    bytes, the allocator's answers are parameters, and the 32-bit and 64-bit limits the
    code checks are written out. */
module SymbolTable {
  import opened Basics
  import opened Probing

  const UINT32_MAX: nat := 0xFFFF_FFFF
  const SIZE_MAX: nat := 0xFFFF_FFFF_FFFF_FFFF
  const ARENA_LIMIT: nat := 0x1_0000_0000
  const DEFAULT_CAPACITY: nat := 4096
  const MAX_INITIAL: nat := 0x4000_0000
  const LOAD_PERCENT: nat := 75
  const ARENA_INITIAL: nat := 0x4_0000

  const INVALID: nat := 0

  datatype Entry = Entry(offset: nat, len: nat, hash: nat)

  /** What the allocator says to each block an intern may have to grow. */
  datatype Grants = Grants(arena: bool, entries: bool, slots: bool)

  // ---- What interning means ---------------------------------------------

  /** One intern of `text` on a table of `texts`, by ID: it is refused and nothing
      changes, or the symbol is the text's, which joins the table if it is new. */
  ghost predicate Interned(texts: seq<Bytes>, text: Bytes, symbol: nat, texts': seq<Bytes>) {
    if symbol == INVALID then texts' == texts && text !in texts
    else
      && texts' == (if text in texts then texts else texts + [text])
      && symbol <= |texts'| && texts'[symbol - 1] == text
  }

  /** Any number of interns, from an empty table. */
  ghost predicate History(tables: seq<seq<Bytes>>, texts: seq<Bytes>, symbols: seq<nat>) {
    && |tables| == |texts| + 1 == |symbols| + 1
    && tables[0] == []
    && forall k :: 0 <= k < |texts| ==> Interned(tables[k], texts[k], symbols[k], tables[k + 1])
  }

  lemma {:induction false} TableGrows(tables: seq<seq<Bytes>>, texts: seq<Bytes>, symbols: seq<nat>, j: nat, k: nat)
    requires History(tables, texts, symbols) && j <= k < |tables|
    ensures tables[j] <= tables[k] && NoDuplicates(tables[k]) && |tables[k]| <= k
    decreases k
  {
    if k > 0 {
      TableGrows(tables, texts, symbols, if j < k then j else k - 1, k - 1);
      assert Interned(tables[k - 1], texts[k - 1], symbols[k - 1], tables[k]);
    }
  }

  /** Over any interns, refused ones among them: two symbols are equal exactly
      when their texts are, and a symbol's text is the one it was given for ever
      after. */
  lemma SymbolsNameTexts(tables: seq<seq<Bytes>>, texts: seq<Bytes>, symbols: seq<nat>, i: nat, j: nat)
    requires History(tables, texts, symbols) && i < |texts| && j < |texts|
    requires symbols[i] != INVALID && symbols[j] != INVALID
    ensures symbols[i] == symbols[j] <==> texts[i] == texts[j]
    ensures 1 <= symbols[i] <= |tables[|texts|]| && tables[|texts|][symbols[i] - 1] == texts[i]
  {
    var last := |texts|;
    assert Interned(tables[i], texts[i], symbols[i], tables[i + 1]);
    assert Interned(tables[j], texts[j], symbols[j], tables[j + 1]);
    TableGrows(tables, texts, symbols, i + 1, last);
    TableGrows(tables, texts, symbols, j + 1, last);
    assert tables[last][symbols[i] - 1] == texts[i] && tables[last][symbols[j] - 1] == texts[j];
  }

  /** The IDs given out are exactly 1 up to the number of distinct texts. */
  lemma {:induction false} EveryIdIsGiven(tables: seq<seq<Bytes>>, texts: seq<Bytes>, symbols: seq<nat>, id: nat)
      returns (k: nat)
    requires History(tables, texts, symbols) && 1 <= id <= |tables[|texts|]|
    ensures k < |texts| && symbols[k] == id
    decreases |texts|
  {
    var last := |texts| - 1;
    assert texts != [];
    assert Interned(tables[last], texts[last], symbols[last], tables[last + 1]);
    if id <= |tables[last]| {
      assert History(tables[..last + 1], texts[..last], symbols[..last]) by {
        assert forall i :: 0 <= i < last ==> Interned(tables[i], texts[i], symbols[i], tables[i + 1]);
      }
      k := EveryIdIsGiven(tables[..last + 1], texts[..last], symbols[..last], id);
    } else {
      TableGrows(tables, texts, symbols, last, last);
      assert symbols[last] == id;
      k := last;
    }
  }

  // ---- The table --------------------------------------------------------

  /** The IDs 1 to n. */
  function IdsUpTo(n: nat): (ids: set<nat>)
    ensures forall id :: id in ids <==> 1 <= id <= n
    ensures |ids| == n
  {
    if n == 0 then {} else IdsUpTo(n - 1) + {n}
  }

  /** `realloc`: a longer block that starts with the old one. */
  method Reallocated<T>(block: array<T>, length: nat, filler: T) returns (grown: array<T>)
    requires block.Length <= length
    ensures fresh(grown) && grown.Length == length && grown[..block.Length] == block[..]
  {
    var kept := block[..];
    grown := new T[length](i => if 0 <= i < |kept| then kept[i] else filler);
  }

  /** The capacity hint rounded up to a power of two, clamped so that doubling
      it cannot wrap. */
  method RoundedCapacity(initialCapacity: nat) returns (cap: nat)
    ensures PowerOfTwo(cap) && PowerOfTwo(2 * cap) && DEFAULT_CAPACITY <= cap <= MAX_INITIAL
    ensures initialCapacity <= MAX_INITIAL ==> initialCapacity <= cap
    ensures cap == DEFAULT_CAPACITY || cap < 2 * initialCapacity
  {
    InitialPowers();
    cap := DEFAULT_CAPACITY;
    if initialCapacity > cap {
      var want := if initialCapacity < MAX_INITIAL then initialCapacity else MAX_INITIAL;
      while cap < want
        invariant PowerOfTwo(cap) && DEFAULT_CAPACITY <= cap <= MAX_INITIAL
        invariant cap == DEFAULT_CAPACITY || cap < 2 * want
      {
        PowersDouble(cap, MAX_INITIAL);
        cap := cap * 2;
      }
    }
  }

  /** An entry holds its text's bytes, terminated, in the used arena. */
  ghost predicate EntryHolds(hash: Hash, text: Bytes, e: Entry, arena: Bytes, used: nat) {
    && e.len == |text| && e.hash == hash(text)
    && e.offset + e.len + 1 <= used <= |arena|
    && arena[e.offset..e.offset + e.len] == text
    && arena[e.offset + e.len] == 0
  }

  ghost predicate Stored(hash: Hash, texts: seq<Bytes>, entries: seq<Entry>, arena: Bytes, used: nat) {
    && |texts| < |entries| && used <= |arena|
    && forall id {:trigger entries[id]} :: 1 <= id <= |texts| ==>
         EntryHolds(hash, texts[id - 1], entries[id], arena, used)
  }

  /** What is stored stays so while the used part of both arrays does. */
  lemma StoredMoves(hash: Hash, texts: seq<Bytes>, entries: seq<Entry>, arena: Bytes, used: nat, entries': seq<Entry>,
                    arena': Bytes, used': nat)
    requires Stored(hash, texts, entries, arena, used)
    requires |texts| < |entries'| && used <= used' <= |arena'|
    requires forall id :: 1 <= id <= |texts| ==> entries'[id] == entries[id]
    requires arena'[..used] == arena[..used]
    ensures Stored(hash, texts, entries', arena', used')
  {
    forall id | 1 <= id <= |texts|
      ensures EntryHolds(hash, texts[id - 1], entries'[id], arena', used')
    {
      var e := entries[id];
      assert EntryHolds(hash, texts[id - 1], e, arena, used);
      assert arena'[e.offset..e.offset + e.len] == arena'[..used][e.offset..e.offset + e.len];
      assert arena[e.offset..e.offset + e.len] == arena[..used][e.offset..e.offset + e.len];
      assert arena'[e.offset + e.len] == arena'[..used][e.offset + e.len];
      assert arena[e.offset + e.len] == arena[..used][e.offset + e.len];
    }
  }

  class Symbols {
    const hash: Hash
    var live: bool
    var entries: array<Entry>
    var count: nat
    var slots: array<Slot>
    var slotsMask: nat
    var arena: array<Byte>
    var arenaUsed: nat

    /** The interned texts, in the order of their IDs. */
    ghost var texts: seq<Bytes>

    /** How far from its home each symbol's slot is. */
    ghost var dist: map<nat, nat>

    ghost function Ids(): set<nat>
      reads this
    {
      IdsUpTo(|texts|)
    }

    ghost predicate ArenaValid()
      reads this, entries, arena
    {
      && count == |texts| && entries.Length <= UINT32_MAX
      && arenaUsed <= ARENA_LIMIT && 0 < arena.Length <= SIZE_MAX
      && Stored(hash, texts, entries[..], arena[..], arenaUsed)
    }

    ghost predicate SlotsValid()
      reads this, slots
    {
      && PowerOfTwo(slots.Length) && 2 <= slots.Length <= 0x8000_0000
      && slotsMask == slots.Length - 1
      && |texts| * 100 < slots.Length * LOAD_PERCENT
      && Table(hash, texts, slots[..], Ids(), dist)
    }

    ghost predicate Valid()
      reads this, entries, slots, arena
    {
      if live then ArenaValid() && SlotsValid() else texts == [] && count == 0
    }

    /** Process start: no table. */
    constructor (hash: Hash)
      ensures Valid() && !live && texts == [] && this.hash == hash
      ensures fresh(entries) && fresh(slots) && fresh(arena)
    {
      this.hash := hash;
      live, count, slotsMask, arenaUsed := false, 0, 0, 0;
      entries := new Entry[0];
      slots := new Slot[0];
      arena := new Byte[0];
      texts, dist := [], map[];
    }

    /** A table for at least `initialCapacity` symbols, up to a clamp, and for fewer
        than twice as many where that is past the default; whatever was there before.
        The program aborts when this allocation is refused, so it never is. */
    method Init(initialCapacity: nat)
      requires initialCapacity <= UINT32_MAX
      modifies this
      ensures Valid() && live && texts == []
      ensures fresh(entries) && fresh(slots) && fresh(arena)
      ensures initialCapacity <= MAX_INITIAL ==> initialCapacity <= entries.Length
      ensures entries.Length == DEFAULT_CAPACITY || entries.Length < 2 * initialCapacity
      ensures slots.Length == 2 * entries.Length
    {
      var cap := RoundedCapacity(initialCapacity);
      var newEntries := new Entry[cap](_ => Entry(0, 0, 0));
      var newSlots := new Slot[cap * 2](_ => EmptySlot);
      var newArena := new Byte[ARENA_INITIAL](_ => 0);
      EmptyTable(hash, [], newSlots[..]);
      entries, slots, arena := newEntries, newSlots, newArena;
      count, slotsMask, arenaUsed := 0, cap * 2 - 1, 0;
      live, texts, dist := true, [], map[];
    }

    method Destroy()
      modifies this
      ensures Valid() && !live && texts == []
      ensures fresh(entries) && fresh(slots) && fresh(arena)
    {
      entries := new Entry[0];
      slots := new Slot[0];
      arena := new Byte[0];
      live, count, slotsMask, arenaUsed := false, 0, 0, 0;
      texts, dist := [], map[];
    }

    // ---- Growth ---------------------------------------------------------

    /** Room for `needed` more arena bytes, unless the allocator is asked for it
        and refuses. */
    method ArenaReserve(needed: nat, granted: bool) returns (ok: bool)
      requires live && Valid() && arenaUsed + needed <= ARENA_LIMIT
      modifies this`arena
      ensures Valid() && (arena == old(arena) || fresh(arena))
      ensures ok <==> arenaUsed + needed <= old(arena).Length || granted
      ensures if ok then arenaUsed + needed <= arena.Length else arena == old(arena)
    {
      var want, newCap := arenaUsed + needed, arena.Length;
      if want <= newCap { return true; }
      while newCap < want
        invariant arena.Length <= newCap <= SIZE_MAX
      {
        newCap := if newCap > SIZE_MAX / 2 then want else newCap * 2;
      }
      if !granted { return false; }
      var grown := Reallocated(arena, newCap, 0);
      StoredMoves(hash, texts, entries[..], arena[..], arenaUsed, entries[..], grown[..], arenaUsed);
      arena := grown;
      return true;
    }

    /** Room for one more entry; the capacity stops at 32 bits. */
    method EntriesReserve(granted: bool) returns (ok: bool)
      requires live && Valid()
      modifies this`entries
      ensures Valid() && (entries == old(entries) || fresh(entries))
      ensures ok <==> count + 1 < old(entries).Length || (old(entries).Length <= UINT32_MAX / 2 && granted)
      ensures if ok then count + 1 < entries.Length else entries == old(entries)
    {
      if count + 1 < entries.Length { return true; }
      if entries.Length > UINT32_MAX / 2 { return false; }
      if !granted { return false; }
      var grown := Reallocated(entries, entries.Length * 2, Entry(0, 0, 0));
      StoredMoves(hash, texts, entries[..], arena[..], arenaUsed, grown[..], arena[..], arenaUsed);
      entries := grown;
      return true;
    }

    /** The slots rebuilt at double capacity, which stops at 2^31. */
    method SlotsGrow(granted: bool) returns (ok: bool)
      requires live && Valid()
      modifies this`slots, this`slotsMask, this`dist
      ensures Valid()
      ensures ok <==> old(slots).Length <= UINT32_MAX / 2 && granted
      ensures if ok then fresh(slots) && slots.Length == 2 * old(slots.Length) else slots == old(slots)
    {
      if slots.Length > UINT32_MAX / 2 { return false; }
      var newCap := slots.Length * 2;
      var newMask := newCap - 1;
      if !granted { return false; }
      var newSlots := new Slot[newCap](_ => EmptySlot);
      EmptyTable(hash, texts, newSlots[..]);
      DoubledBound(slots.Length);
      ghost var newDist := Rehash(newSlots, newMask, slots, texts, Ids(), dist);
      slots, slotsMask, dist := newSlots, newMask, newDist;
      ok := true;
    }

    /** Put every slot in use into an empty table of more slots. */
    method Rehash(cells: array<Slot>, mask: nat, from: array<Slot>, ghost texts: seq<Bytes>, ghost ids: set<nat>,
                  ghost dist: map<nat, nat>)
      returns (ghost dist': map<nat, nat>)
      requires cells != from && from.Length < cells.Length && PowerOfTwo(cells.Length) && mask == cells.Length - 1
      requires Table(hash, texts, from[..], ids, dist) && 0 !in ids
      requires Table(hash, texts, cells[..], {}, map[])
      modifies cells
      ensures Table(hash, texts, cells[..], ids, dist')
    {
      ghost var slots := from[..];
      dist' := map[];
      for i := 0 to from.Length
        invariant from[..] == slots
        invariant Table(hash, texts, cells[..], IdsIn(slots, i), dist')
      {
        IdsInNext(slots, i);
        if from[i].id != 0 {
          UsedSlot(hash, texts, slots, ids, dist, i);
          NotMovedYet(hash, texts, slots, ids, dist, i);
          MovedAreFew(hash, texts, slots, ids, dist, i);
          dist' := Move(cells, mask, from[i], texts, IdsIn(slots, i), dist');
        } else {
          assert IdsIn(slots, i + 1) == IdsIn(slots, i);
        }
      }
      AllMoved(hash, texts, slots, ids, dist);
    }

    /** Put a slot in use into a table with room. */
    method Move(cells: array<Slot>, mask: nat, slot: Slot, ghost texts: seq<Bytes>, ghost ids: set<nat>,
                ghost dist: map<nat, nat>)
      returns (ghost dist': map<nat, nat>)
      requires PowerOfTwo(cells.Length) && mask == cells.Length - 1
      requires Table(hash, texts, cells[..], ids, dist) && |ids| < cells.Length
      requires 1 <= slot.id <= |texts| && slot.id !in ids && slot.hash == hash(texts[slot.id - 1])
      modifies cells
      ensures Table(hash, texts, cells[..], ids + {slot.id}, dist')
    {
      var idx, d := EmptyFrom(cells, mask, slot.hash, texts, ids, dist);
      InsertKeeps(hash, texts, cells[..], ids, dist, slot.id, d);
      ghost var before := cells[..];
      cells[idx] := slot;
      assert cells[..] == before[idx := slot];
      dist' := dist[slot.id := d];
    }

    /** The first empty slot a probe meets in a table with room. */
    method EmptyFrom(cells: array<Slot>, mask: nat, h: nat, ghost texts: seq<Bytes>, ghost ids: set<nat>,
                     ghost dist: map<nat, nat>)
      returns (idx: nat, ghost d: nat)
      requires PowerOfTwo(cells.Length) && mask == cells.Length - 1
      requires Table(hash, texts, cells[..], ids, dist) && |ids| < cells.Length
      ensures d < cells.Length && idx == At(cells.Length, h % cells.Length, d) && cells[idx].id == 0
      ensures Filled(cells[..], h % cells.Length, d)
    {
      ghost var n, home := cells.Length, h % cells.Length;
      MaskIsRemainder(h, n);
      idx, d := BitAnd(h, mask), 0;
      ghost var stop := EmptyExists(hash, texts, cells[..], ids, dist);
      while cells[idx].id != 0
        invariant d <= Distance(n, home, stop) && idx == At(n, home, d)
        invariant Filled(cells[..], home, d)
        decreases n - d
      {
        NotAtEmpty(cells[..], home, d, stop);
        FollowingIsMasked(n, idx);
        idx, d := BitAnd(idx + 1, mask), d + 1;
      }
    }

    /** Is this the symbol of that text? */
    method Matches(id: nat, text: Bytes) returns (same: bool)
      requires live && Valid() && 1 <= id <= |texts|
      ensures same <==> texts[id - 1] == text
    {
      var e := entries[id];
      assert EntryHolds(hash, texts[id - 1], entries[..][id], arena[..], arenaUsed);
      assert arena[..][e.offset..e.offset + e.len] == arena[e.offset..e.offset + e.len];
      same := e.len == |text| && arena[e.offset..e.offset + e.len] == text;
    }

    /** Probe for a text from its home: its symbol, or the empty slot that proves
        it absent. */
    method Probe(text: Bytes) returns (symbol: nat, idx: nat, ghost d: nat)
      requires live && Valid()
      ensures d < slots.Length && idx == At(slots.Length, Home(hash, text, slots.Length), d)
      ensures symbol != INVALID ==> 1 <= symbol <= |texts| && texts[symbol - 1] == text
      ensures symbol == INVALID ==> slots[idx].id == 0 && text !in texts
      ensures symbol == INVALID ==> Filled(slots[..], Home(hash, text, slots.Length), d)
    {
      var h := hash(text);
      ghost var n, home, cells := slots.Length, Home(hash, text, slots.Length), slots[..];
      MaskIsRemainder(h, slots.Length);
      idx, d := BitAnd(h, slotsMask), 0;
      ghost var stop := EmptyExists(hash, texts, cells, Ids(), dist);
      while slots[idx].id != 0
        invariant d <= Distance(n, home, stop) && idx == At(n, home, d)
        invariant Passed(texts, cells, home, d, text)
        decreases n - d
      {
        var id := slots[idx].id;
        UsedSlot(hash, texts, cells, Ids(), dist, idx);
        if slots[idx].hash == h {
          var same := Matches(id, text);
          if same { return id, idx, d; }
        }
        PassedNext(texts, cells, home, d, text);
        NotAtEmpty(cells, home, d, stop);
        FollowingIsMasked(n, idx);
        idx, d := BitAnd(idx + 1, slotsMask), d + 1;
      }
      symbol := INVALID;
      AbsentAtEmpty(hash, texts, cells, Ids(), dist, text, d);
      AllIds(texts, text);
    }

    // ---- Interning ------------------------------------------------------

    /** A block that has to grow for one more text cannot: it is at its 32-bit
        ceiling, or the allocator refuses. */
    ghost predicate CannotGrow(text: Bytes, grants: Grants)
      reads this
    {
      BlocksStuck(text, grants) || SlotsStuck(grants)
    }

    ghost predicate BlocksStuck(text: Bytes, grants: Grants)
      reads this
    {
      || (arenaUsed + |text| + 1 > arena.Length && !grants.arena)
      || (count + 1 >= entries.Length && (entries.Length > UINT32_MAX / 2 || !grants.entries))
    }

    ghost predicate SlotsStuck(grants: Grants)
      reads this
    {
      (count + 1) * 100 >= slots.Length * LOAD_PERCENT && (slots.Length > UINT32_MAX / 2 || !grants.slots)
    }

    /** Everything a new text can be refused for. */
    ghost predicate Refuses(text: Bytes, grants: Grants)
      reads this
    {
      || !live
      || |text| > UINT32_MAX || arenaUsed + |text| + 1 > ARENA_LIMIT
      || CannotGrow(text, grants)
    }

    /** The symbol of a text: the one it has, or the next one if it is new and
        nothing stands against it; a refusal changes no symbol. */
    method Intern(text: Bytes, grants: Grants) returns (symbol: nat)
      requires Valid()
      modifies this, entries, slots, arena
      ensures Valid() && live == old(live)
      ensures Interned(old(texts), text, symbol, texts)
      ensures symbol == INVALID <==> text !in old(texts) && old(Refuses(text, grants))
      ensures text !in old(texts) && symbol != INVALID ==> symbol == |old(texts)| + 1
      ensures entries == old(entries) || fresh(entries)
      ensures slots == old(slots) || fresh(slots)
      ensures arena == old(arena) || fresh(arena)
    {
      if !live { return INVALID; }
      if |text| > UINT32_MAX {
        TooLong(hash, texts, entries[..], arena[..], arenaUsed, text);
        return INVALID;
      }
      var found, idx, d := Probe(text);
      if found != INVALID { return found; }
      if |text| >= ARENA_LIMIT - arenaUsed { return INVALID; }
      var ok;
      ok, idx, d := Reserve(text, idx, d, grants);
      if !ok { return INVALID; }
      symbol := Commit(text, idx, d);
    }

    /** The arena and the entries one more text needs. */
    method ReserveBlocks(text: Bytes, grants: Grants) returns (ok: bool)
      requires live && Valid() && arenaUsed + |text| + 1 <= ARENA_LIMIT
      modifies this`arena, this`entries
      ensures Valid()
      ensures entries == old(entries) || fresh(entries)
      ensures arena == old(arena) || fresh(arena)
      ensures ok <==> !old(BlocksStuck(text, grants))
      ensures ok ==> arenaUsed + |text| + 1 <= arena.Length && count + 1 < entries.Length
    {
      ok := ArenaReserve(|text| + 1, grants.arena);
      if !ok { return; }
      ok := EntriesReserve(grants.entries);
    }

    /** Everything one more text needs; the slots are rebuilt ahead of the insert
        that would reach the load limit, and its empty slot found again in them. */
    method Reserve(text: Bytes, at: nat, ghost past: nat, grants: Grants)
      returns (ok: bool, idx: nat, ghost d: nat)
      requires live && Valid() && arenaUsed + |text| + 1 <= ARENA_LIMIT
      requires past < slots.Length && at == At(slots.Length, Home(hash, text, slots.Length), past)
      requires slots[at].id == 0 && Filled(slots[..], Home(hash, text, slots.Length), past)
      modifies this`arena, this`entries, this`slots, this`slotsMask, this`dist
      ensures Valid()
      ensures entries == old(entries) || fresh(entries)
      ensures arena == old(arena) || fresh(arena)
      ensures slots == old(slots) || fresh(slots)
      ensures ok <==> !old(CannotGrow(text, grants))
      ensures ok ==>
                && arenaUsed + |text| + 1 <= arena.Length && count + 1 < entries.Length
                && (count + 1) * 100 < slots.Length * LOAD_PERCENT
                && d < slots.Length && idx == At(slots.Length, Home(hash, text, slots.Length), d)
                && slots[idx].id == 0 && Filled(slots[..], Home(hash, text, slots.Length), d)
    {
      idx, d := at, past;
      ok := ReserveBlocks(text, grants);
      if !ok { return; }
      if (count + 1) * 100 >= slots.Length * LOAD_PERCENT {
        ok := SlotsGrow(grants.slots);
        if ok {
          idx, d := EmptySlotFor(text);
        }
      }
    }

    /** The empty slot a new text's probe ends at. */
    method EmptySlotFor(text: Bytes) returns (idx: nat, ghost d: nat)
      requires live && Valid()
      ensures d < slots.Length && idx == At(slots.Length, Home(hash, text, slots.Length), d)
      ensures slots[idx].id == 0 && Filled(slots[..], Home(hash, text, slots.Length), d)
    {
      idx, d := EmptyFrom(slots, slotsMask, hash(text), texts, Ids(), dist);
    }

    /** Copy a text and its terminator into the arena. */
    method CopyText(text: Bytes, offset: nat)
      requires offset + |text| + 1 <= arena.Length
      modifies arena
      ensures arena[..][..offset] == old(arena[..])[..offset]
      ensures arena[..][offset..offset + |text|] == text && arena[..][offset + |text|] == 0
    {
      forall k | 0 <= k < |text| {
        arena[offset + k] := text[k];
      }
      arena[offset + |text|] := 0;
    }

    /** The insert itself, once there is room for it. */
    method Commit(text: Bytes, idx: nat, ghost d: nat) returns (symbol: nat)
      requires live && Valid() && text !in texts
      requires arenaUsed + |text| + 1 <= arena.Length && arenaUsed + |text| + 1 <= ARENA_LIMIT
      requires count + 1 < entries.Length && (count + 1) * 100 < slots.Length * LOAD_PERCENT
      requires d < slots.Length && idx == At(slots.Length, Home(hash, text, slots.Length), d) && slots[idx].id == 0
      requires Filled(slots[..], Home(hash, text, slots.Length), d)
      modifies this`count, this`arenaUsed, this`texts, this`dist, entries, slots, arena
      ensures Valid() && symbol == |texts| && texts == old(texts) + [text]
    {
      StoreText(text);
      ghost var stored, used := entries[..], arena[..];
      TakeSlot(text, idx, d);
      assert entries[..] == stored && arena[..] == used;
      symbol := count + 1;
      count, arenaUsed := symbol, arenaUsed + |text| + 1;
      dist := dist[symbol := d];
      texts := texts + [text];
      assert ArenaValid();
      assert SlotsValid();
    }

    /** Put the next symbol in the empty slot its probe stopped at. */
    method TakeSlot(text: Bytes, idx: nat, ghost d: nat)
      requires Table(hash, texts, slots[..], Ids(), dist) && count == |texts| && d < slots.Length
      requires idx == At(slots.Length, Home(hash, text, slots.Length), d) && slots[idx].id == 0
      requires Filled(slots[..], Home(hash, text, slots.Length), d)
      modifies slots
      ensures Table(hash, texts + [text], slots[..], IdsUpTo(count + 1), dist[count + 1 := d])
    {
      ghost var table := slots[..];
      slots[idx] := Slot(hash(text), count + 1);
      CommitKeeps(hash, texts, table, Ids(), dist, text, idx, d);
      assert slots[..] == table[idx := Slot(hash(text), count + 1)];
      assert Ids() + {count + 1} == IdsUpTo(count + 1);
    }

    /** Copy a text past the used arena, with the entry of the next symbol. */
    method StoreText(text: Bytes)
      requires live && Valid()
      requires arenaUsed + |text| + 1 <= arena.Length && count + 1 < entries.Length
      modifies entries, arena
      ensures Stored(hash, texts + [text], entries[..], arena[..], arenaUsed + |text| + 1)
    {
      ghost var before, was := arena[..], entries[..];
      CopyText(text, arenaUsed);
      ghost var copied := arena[..];
      entries[count + 1] := Entry(arenaUsed, |text|, hash(text));
      assert arena[..] == copied && entries[..] == was[count + 1 := Entry(arenaUsed, |text|, hash(text))];
      StoredAppends(hash, texts, was, before, arenaUsed, text, entries[..], copied);
    }

    /** A symbol's text, or nothing for a symbol not given out. */
    method Text(symbol: nat) returns (text: Option<Bytes>)
      requires Valid()
      ensures text == if 1 <= symbol <= |texts| then Some(texts[symbol - 1]) else None
    {
      if symbol == INVALID || symbol > count { return None; }
      var e := entries[symbol];
      assert EntryHolds(hash, texts[symbol - 1], entries[..][symbol], arena[..], arenaUsed);
      assert arena[..][e.offset..e.offset + e.len] == arena[e.offset..e.offset + e.len];
      return Some(arena[e.offset..e.offset + e.len]);
    }

    method Length(symbol: nat) returns (len: nat)
      requires Valid()
      ensures len == if 1 <= symbol <= |texts| then |texts[symbol - 1]| else 0
    {
      if symbol == INVALID || symbol > count { return 0; }
      assert EntryHolds(hash, texts[symbol - 1], entries[..][symbol], arena[..], arenaUsed);
      return entries[symbol].len;
    }
  }

  /** No interned text is longer than 32 bits can say. */
  lemma TooLong(hash: Hash, texts: seq<Bytes>, entries: seq<Entry>, arena: Bytes, used: nat, text: Bytes)
    requires Stored(hash, texts, entries, arena, used) && used <= ARENA_LIMIT && |text| > UINT32_MAX
    ensures text !in texts
  {
    forall i | 0 <= i < |texts|
      ensures texts[i] != text
    {
      assert EntryHolds(hash, texts[i + 1 - 1], entries[i + 1], arena, used);
    }
  }

  /** A text copied past the used arena, with its entry, is stored too. */
  lemma StoredAppends(hash: Hash, texts: seq<Bytes>, entries: seq<Entry>, arena: Bytes, used: nat, text: Bytes,
                      entries': seq<Entry>, arena': Bytes)
    requires Stored(hash, texts, entries, arena, used)
    requires |texts| + 1 < |entries| && used + |text| + 1 <= |arena| == |arena'|
    requires entries' == entries[|texts| + 1 := Entry(used, |text|, hash(text))]
    requires arena'[..used] == arena[..used] && arena'[used..used + |text|] == text && arena'[used + |text|] == 0
    ensures Stored(hash, texts + [text], entries', arena', used + |text| + 1)
  {
    StoredMoves(hash, texts, entries, arena, used, entries', arena', used + |text| + 1);
    forall id | 1 <= id <= |texts| + 1
      ensures EntryHolds(hash, (texts + [text])[id - 1], entries'[id], arena', used + |text| + 1)
    {
    }
  }

  /** The symbols in the first `i` slots. */
  ghost function IdsIn(slots: seq<Slot>, i: nat): set<nat>
    requires i <= |slots|
  {
    if i == 0 then {}
    else IdsIn(slots, i - 1) + if slots[i - 1].id == 0 then {} else {slots[i - 1].id}
  }

  lemma IdsInNext(slots: seq<Slot>, i: nat)
    requires i < |slots|
    ensures IdsIn(slots, i + 1) == IdsIn(slots, i) + if slots[i].id == 0 then {} else {slots[i].id}
  {
  }

  lemma {:induction false} IdsInHolds(slots: seq<Slot>, i: nat, id: nat)
    requires i <= |slots|
    ensures id in IdsIn(slots, i) <==> id != 0 && exists j :: 0 <= j < i && slots[j].id == id
  {
    if i > 0 {
      IdsInHolds(slots, i - 1, id);
    }
  }

  lemma NotMovedYet(hash: Hash, texts: seq<Bytes>, slots: seq<Slot>, ids: set<nat>, dist: map<nat, nat>, i: nat)
    requires Table(hash, texts, slots, ids, dist) && i < |slots| && slots[i].id != 0
    ensures slots[i].id !in IdsIn(slots, i)
  {
    IdsInHolds(slots, i, slots[i].id);
    forall j | 0 <= j < i
      ensures slots[j].id != slots[i].id
    {
      assert Differ(slots, j, i);
    }
  }

  lemma {:induction false} MovedAreFew(hash: Hash, texts: seq<Bytes>, slots: seq<Slot>, ids: set<nat>,
                                       dist: map<nat, nat>, i: nat)
    requires Table(hash, texts, slots, ids, dist) && i <= |slots|
    ensures IdsIn(slots, i) <= ids && |IdsIn(slots, i)| <= i
  {
    if i > 0 {
      MovedAreFew(hash, texts, slots, ids, dist, i - 1);
      assert Bears(hash, texts, slots, ids, i - 1);
    }
  }

  /** Every symbol is in some slot, so moving every slot moves every symbol. */
  lemma AllMoved(hash: Hash, texts: seq<Bytes>, slots: seq<Slot>, ids: set<nat>, dist: map<nat, nat>)
    requires Table(hash, texts, slots, ids, dist) && 0 !in ids
    ensures IdsIn(slots, |slots|) == ids
  {
    MovedAreFew(hash, texts, slots, ids, dist, |slots|);
    forall id | id in ids
      ensures id in IdsIn(slots, |slots|)
    {
      assert Placed(hash, texts, slots, dist, id);
      IdsInHolds(slots, |slots|, id);
    }
  }

  /** A power of two at most half the 32-bit range doubles within 2^31. */
  lemma DoubledBound(n: nat)
    requires PowerOfTwo(n)
    ensures PowerOfTwo(2 * n)
    ensures n <= UINT32_MAX / 2 ==> 2 * n <= 0x8000_0000
  {
    InitialPowers();
    PowersMultiply(MAX_INITIAL, 2);
    if n <= UINT32_MAX / 2 && n > MAX_INITIAL {
      PowersDouble(MAX_INITIAL, n);
    }
  }

  lemma AllIds(texts: seq<Bytes>, text: Bytes)
    requires forall id :: id in IdsUpTo(|texts|) ==> texts[id - 1] != text
    ensures text !in texts
  {
    forall i | 0 <= i < |texts|
      ensures texts[i] != text
    {
      assert i + 1 in IdsUpTo(|texts|);
    }
  }

  lemma InitialPowers()
    ensures PowerOfTwo(DEFAULT_CAPACITY) && PowerOfTwo(MAX_INITIAL)
  {
    PowersMultiply(0x10, 0x10);
    PowersMultiply(0x100, 0x10);
    PowersMultiply(0x1000, 0x1000);
    PowersMultiply(0x100_0000, 0x40);
  }

  lemma {:induction false} PowersMultiply(a: nat, b: nat)
    requires PowerOfTwo(a) && PowerOfTwo(b)
    ensures PowerOfTwo(a * b)
  {
    if a > 1 {
      PowersMultiply(a / 2, b);
      assert a * b == 2 * (a / 2 * b);
    }
  }

  /** Two powers of two are equal or at least double each other. */
  lemma {:induction false} PowersDouble(a: nat, b: nat)
    requires PowerOfTwo(a) && PowerOfTwo(b) && a < b
    ensures 2 * a <= b && PowerOfTwo(2 * a)
  {
    if a > 1 {
      PowersDouble(a / 2, b / 2);
    }
  }
}
