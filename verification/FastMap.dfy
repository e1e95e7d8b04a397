/** `FastMap` (server/src/map.cpp): an open-addressing hash map over a string arena. */
module FastMaps {
  import opened Wrappers
  import opened ArenaImage
  import opened StringArenas
  import opened ProbeTable
  import opened MapImage
  import opened Rebuild
  import opened TableSteps

  /** The next slot to probe. */
  method Advance(slot: nat, capacity: nat) returns (next: nat)
    requires slot < capacity
    ensures next == if slot + 1 < capacity then slot + 1 else 0
  {
    next := (slot + 1) % capacity;
    NextSlot(slot, 0, capacity);
  }

  /** Whether the entry in `slot` is free, a tombstone, or holds `key`. */
  method Inspect(table: array<Entry>, arena: StringArena, slot: nat, key: string, compare: bool)
    returns (free: bool, deleted: bool, hit: bool)
    requires arena.Valid() && slot < table.Length
    requires ReadableEntry(arena.image, table[slot])
    ensures var s := SlotOf(arena.image, table[slot]);
            && (free <==> s == Free)
            && (deleted <==> s == Tombstone)
            && (hit <==> compare && s.Live? && s.key == key)
  {
    var entry := table[slot];
    free := entry.Empty() && !entry.deleted;
    deleted := entry.deleted;
    hit := false;
    if compare && !free && !deleted {
      var view := arena.View(entry.key);
      hit := view == key;
    }
  }

  /** The three lookups of `get_entry`. */
  method GetEntry(mode: SlotMatch, table: array<Entry>, capacity: nat, arena: StringArena, hash: Hash, key: string)
    returns (r: Option<nat>)
    requires arena.Valid() && capacity == table.Length > 0
    requires Readable(arena.image, table[..])
    ensures r == Search(mode, hash, Slots(arena.image, table[..]), key)
  {
    hide Slots, ArenaImage.Valid, ArenaImage.View, StringArena.Valid;
    ghost var es := table[..];
    ghost var slots := Slots(arena.image, es);
    ghost var home := Home(hash, key, capacity);
    var slot := hash(key) % capacity;
    var deletedEntry: Option<nat> := None;
    for checked := 0 to capacity
      invariant slot == if checked < capacity then At(home, checked, capacity) else home
      invariant deletedEntry.Some? ==> mode == MatchOrFree && deletedEntry.value < capacity
      invariant Search(mode, hash, slots, key) == Probe(mode, slots, home, key, checked, deletedEntry)
    {
      SlotAt(arena.image, es, slot);
      var free, deleted, hit := Inspect(table, arena, slot, key, mode != MatchFree);
      if free {
        if mode != Match {
          return if deletedEntry.Some? then deletedEntry else Some(slot);
        }
        return None;
      }
      if hit {
        return Some(slot);
      }
      if deleted && mode == MatchOrFree && deletedEntry.None? {
        deletedEntry := Some(slot);
      }
      slot := Advance(slot, capacity);
    }
    return if mode != Match then deletedEntry else None;
  }

  lemma SlotAt(a: Image, es: seq<Entry>, i: nat)
    requires i < |es|
    ensures Slots(a, es)[i] == SlotOf(a, es[i])
  {
  }

  /** One turn of the loop in `resize`: a live entry of the old table finds its place in the new one. */
  method Rehash(newTable: array<Entry>, newCapacity: nat, arena: StringArena, hash: Hash, entry: Entry,
                ghost es: seq<Entry>, ghost i: nat)
    requires arena.Valid() && newTable !in arena.Repr
    requires newCapacity == newTable.Length && i < |es| < newCapacity
    requires Readable(arena.image, es) && Readable(arena.image, newTable[..])
    requires Fillable(Slots(arena.image, newTable[..]), i)
    requires es[i] == entry && !entry.Empty()
    modifies newTable
    ensures Readable(arena.image, newTable[..]) && Fillable(Slots(arena.image, newTable[..]), i + 1)
    ensures Refill(hash, arena.image, es, i, old(newTable[..])) == Refill(hash, arena.image, es, i + 1, newTable[..])
  {
    hide Slots, ArenaImage.Valid, ArenaImage.View, StringArena.Valid, Fillable;
    ghost var before := newTable[..];
    assert ReadableEntry(arena.image, es[i]);
    var key := arena.View(entry.key);
    var found := GetEntry(MatchFree, newTable, newCapacity, arena, hash, key);
    FillableStep(hash, arena.image, before, i, entry);
    SlotAt(arena.image, before, found.value);
    newTable[found.value] := newTable[found.value].(key := entry.key);
    newTable[found.value] := newTable[found.value].(value := entry.value);
    assert newTable[..] == before[found.value := before[found.value].(key := entry.key, value := entry.value)];
  }

  /** All live entries rehashed into a table of the new capacity; for each of them there is a free slot. */
  method Resize(table: array<Entry>, arena: StringArena, newCapacity: nat, hash: Hash,
                ghost size: nat, ghost contents: map<string, string>, ghost abandoned: nat)
    returns (newTable: array<Entry>)
    requires arena.Valid() && table.Length > 0 && newCapacity == 2 * table.Length
    requires Readable(arena.image, table[..])
    ensures fresh(newTable) && newTable.Length == newCapacity
    ensures newTable[..] == Refill(hash, arena.image, table[..], 0, Blank(newCapacity))
    ensures Sound(hash, arena.image, table[..], size, contents, abandoned) ==>
              && Sound(hash, arena.image, newTable[..], size, contents, abandoned)
              && forall j :: 0 <= j < newCapacity ==> Slots(arena.image, newTable[..])[j] != Tombstone
  {
    hide Sound, Slots, Readable, Fillable, ArenaImage.Valid, StringArena.Valid, Refill;
    newTable := new Entry[newCapacity](_ => BLANK);
    ghost var es := table[..];
    assert newTable[..] == Blank(newCapacity);
    ReadableBlank(arena.image, newCapacity);
    FillableStart(arena.image, newCapacity);
    for i := 0 to table.Length
      invariant arena.Valid() && table[..] == es
      invariant Readable(arena.image, newTable[..]) && Fillable(Slots(arena.image, newTable[..]), i)
      invariant Refill(hash, arena.image, es, 0, Blank(newCapacity)) == Refill(hash, arena.image, es, i, newTable[..])
    {
      RefillSkip(hash, arena.image, es, i, newTable[..]);
      if !table[i].Empty() {
        Rehash(newTable, newCapacity, arena, hash, table[i], es, i);
      } else {
        FillableMore(Slots(arena.image, newTable[..]), i);
      }
    }
    RefillEnd(hash, arena.image, es, newTable[..]);
    if Sound(hash, arena.image, es, size, contents, abandoned) {
      RefillSound(hash, arena.image, es, size, contents, abandoned);
    }
  }

  lemma RefillSkip(hash: Hash, a: Image, es: seq<Entry>, i: nat, table: seq<Entry>)
    requires i < |es| && |table| > 0
    ensures es[i].Empty() ==> Refill(hash, a, es, i, table) == Refill(hash, a, es, i + 1, table)
  {
  }

  lemma RefillEnd(hash: Hash, a: Image, es: seq<Entry>, table: seq<Entry>)
    requires |table| > 0
    ensures Refill(hash, a, es, |es|, table) == table
  {
  }

  lemma FillableMore(slots: seq<Slot>, i: nat)
    requires Fillable(slots, i)
    ensures Fillable(slots, i + 1)
  {
  }

  class FastMap {
    const hash: Hash
    const rule: TailRule
    var capacity: nat
    var size: nat
    var arena: StringArena
    var table: array<Entry>

    ghost var contents: map<string, string>  // the plain map this object stands for
    ghost var abandoned: nat                 // bytes neither live nor counted as dead
    ghost var Repr: set<object>

    ghost predicate Owns()
      reads this, Repr
    {
      && this in Repr && table in Repr && arena in Repr && arena.Repr <= Repr
      && this !in arena.Repr && table !in arena.Repr
      && arena.Valid()
      && table.Length == capacity > 0
    }

    ghost predicate Valid()
      reads this, Repr
      ensures Valid() ==> this in Repr
    {
      Owns() && Sound(hash, arena.image, table[..], size, contents, abandoned)
    }

    /** What `get` and `set` need, also after a pair with an empty key has been stored. */
    ghost predicate Readable()
      reads this, Repr
    {
      Owns() && TableSteps.Readable(arena.image, table[..])
    }

    lemma StillReadable()
      requires Owns() && Legible(Picture())
      ensures Readable()
    {
    }

    lemma Reading()
      requires Readable()
      ensures Legible(Picture())
      ensures forall i :: 0 <= i < capacity ==> ValidRef(arena.image, table[i].value)
    {
      assert forall i :: 0 <= i < capacity ==> ReadableEntry(arena.image, table[..][i]);
    }

    ghost function Picture(): Table
      requires Owns()
      reads this, Repr
    {
      Table(arena.image, table[..], size)
    }

    /** The slots, as the map sees them. */
    ghost function View(): seq<Slot>
      requires Owns()
      reads this, Repr
    {
      Slots(arena.image, table[..])
    }

    /** A capacity of zero is accepted, but leaves nothing that can be looked up. */
    constructor (capacity: nat, hash: Hash, rule: TailRule)
      ensures capacity > 0 ==> Valid()
      ensures fresh(Repr) && table.Length == capacity
      ensures contents == map[] && arena.image == Empty(ARENA_BLOCK_SIZE) && size == abandoned == 0
      ensures this.capacity == capacity && this.hash == hash && this.rule == rule
      ensures arena.image.blockSize == 65536
    {
      this.capacity, size := capacity, 0;
      this.hash, this.rule := hash, rule;
      var ar := new StringArena(ARENA_BLOCK_SIZE);
      var ta := new Entry[capacity](_ => BLANK);
      arena, table := ar, ta;
      contents, abandoned := map[], 0;
      Repr := {this, ta} + ar.Repr;
      new;
      if capacity > 0 {
        StartSound(hash, capacity);
        assert table[..] == seq(capacity, _ => BLANK);
      }
    }

    /** What callers may rely on. */
    lemma Load()
      requires Valid()
      ensures size == |contents| && MapImage.Load(size, capacity) && Readable()
    {
      SoundLegible(hash, Picture(), contents, abandoned);
    }

    method Get(key: string) returns (r: Option<string>)
      requires Readable()
      ensures r == GetOn(hash, Picture(), key)
      ensures Valid() ==> r == if key in contents then Some(contents[key]) else None
    {
      hide Sound, Slots, ArenaImage.Valid, ArenaImage.View, StringArena.Valid;
      if Valid() {
        GetSound(hash, Picture(), contents, abandoned, key);
      }
      var entry := GetEntry(Match, table, capacity, arena, hash, key);
      if entry.None? {
        return None;
      }
      assert ReadableEntry(arena.image, table[..][entry.value]);
      var view := arena.View(table[entry.value].value);
      return Some(view);
    }

    /** The table at twice its capacity. */
    method Grow()
      requires Readable()
      modifies Repr
      ensures Readable() && fresh(Repr - old(Repr)) && Picture() == Grown(hash, old(Picture()))
      ensures contents == old(contents) && abandoned == old(abandoned)
      ensures old(Valid()) ==> Valid()
    {
      hide Sound, Slots, Refill, ArenaImage.Valid, ArenaImage.View, StringArena.Valid, TableSteps.Readable;
      ReadableBlank(arena.image, 2 * capacity);
      RefillReadable(hash, arena.image, table[..], 0, Blank(2 * capacity));
      table := Resize(table, arena, capacity * 2, hash, size, contents, abandoned);
      capacity := capacity * 2;
      Repr := Repr + {table};
    }

    /** The key goes into a vacant entry. */
    method StoreKey(entry: nat, key: string)
      requires Owns() && entry < capacity && |key| < WORD32
      modifies Repr
      ensures Owns() && fresh(Repr - old(Repr)) && Picture() == PutKey(old(Picture()), entry, key)
      ensures contents == old(contents) && abandoned == old(abandoned)
    {
      hide Stored, ArenaImage.Valid, StringArena.Valid;
      ghost var es := table[..];
      table[entry] := table[entry].(deleted := false);
      var k := arena.Store(key);
      table[entry] := table[entry].(key := k);
      size := size + 1;
      Repr := Repr + arena.Repr;
      assert table[..] == es[entry := es[entry].(deleted := false, key := k)];
    }

    /** The search for the key or a vacant entry, the growth of the table and the key's entry. */
    method PlaceKey(key: string) returns (entry: Option<nat>)
      requires Readable() && |key| < WORD32
      modifies Repr
      ensures Legible(old(Picture())) && Readable() && fresh(Repr - old(Repr))
      ensures (entry, Picture()) == KeyPlaced(hash, old(Picture()), key)
      ensures contents == old(contents) && abandoned == old(abandoned)
      ensures Search(MatchOrFree, hash, old(Picture()).View(), key).None? ==> Repr == old(Repr)
    {
      hide Slots, ArenaImage.Valid, ArenaImage.View, StringArena.Valid, TableSteps.Readable;
      hide Grown, PutKey, Search;
      Reading();
      PreparedLegible(hash, Picture(), key);
      entry := GetEntry(MatchOrFree, table, capacity, arena, hash, key);
      if entry.Some? && table[entry.value].Empty() {
        if 4 * size >= 3 * capacity {
          Grow();
          Reading();
          entry := GetEntry(MatchOrFree, table, capacity, arena, hash, key);
          if entry.None? {
            return;
          }
        }
        PutKeyLegible(Picture(), entry.value, key);
        StoreKey(entry.value, key);
      }
    }

    /** The value is rewritten in place when it fits, otherwise stored anew. */
    method StoreValue(entry: nat, value: string) returns (o: SetOutcome)
      requires Owns() && entry < capacity && |value| < WORD32
      requires ValidRef(arena.image, table[entry].value)
      modifies Repr
      ensures o == PutValue(rule, old(Picture()), entry, value).0
      ensures o != Overrun ==>
                Owns() && fresh(Repr - old(Repr)) && Picture() == PutValue(rule, old(Picture()), entry, value).1
      ensures contents == old(contents) && abandoned == old(abandoned) && capacity == old(capacity)
    {
      hide Stored, Overwritten, ArenaImage.Valid, StringArena.Valid;
      ghost var es := table[..];
      var oldValue := table[entry].value;
      var ref: StringRef;
      if |value| <= oldValue.size {
        var r := arena.Overwrite(rule, oldValue, value);
        if r.None? {
          return Overrun;
        }
        ref := r.value;
      } else {
        ref := arena.Store(value);
      }
      table[entry] := table[entry].(value := ref);
      Repr := Repr + arena.Repr;
      assert table[..] == es[entry := es[entry].(value := ref)];
      o := Done;
    }

    /** `set` as it moves the table, whatever the table stores. */
    method Assign(key: string, value: string) returns (o: SetOutcome)
      requires Readable() && |key| < WORD32 && |value| < WORD32
      modifies Repr
      ensures Legible(old(Picture())) && o == SetOn(hash, rule, old(Picture()), key, value).0
      ensures o != Overrun ==>
                Readable() && fresh(Repr - old(Repr)) && Picture() == SetOn(hash, rule, old(Picture()), key, value).1
      ensures capacity == |SetOn(hash, rule, old(Picture()), key, value).1.entries|
      ensures Search(MatchOrFree, hash, old(Picture()).View(), key).None? ==> Repr == old(Repr)
      ensures contents == old(contents) && abandoned == old(abandoned)
    {
      hide Slots, ArenaImage.Valid, ArenaImage.View, StringArena.Valid, TableSteps.Readable;
      hide KeyPlaced, PutValue, Search, Legible;
      Reading();
      SetLegible(hash, rule, Picture(), key, value);
      NotPlaced(hash, Picture(), key);
      var entry := PlaceKey(key);
      if entry.None? {
        return NullEntry;
      }
      Reading();
      o := StoreValue(entry.value, value);
      if o == Done {
        StillReadable();
      }
    }

    /** `set` on any readable table, of any key; on a table that stores a plain map, a non-empty key is
        stored in it. */
    method Set(key: string, value: string) returns (o: SetOutcome)
      requires Readable() && |key| < WORD32 && |value| < WORD32
      modifies Repr
      ensures Legible(old(Picture())) && o == SetOn(hash, rule, old(Picture()), key, value).0
      ensures o != Overrun ==>
                Readable() && fresh(Repr - old(Repr)) && Picture() == SetOn(hash, rule, old(Picture()), key, value).1
      ensures capacity == |SetOn(hash, rule, old(Picture()), key, value).1.entries|
      ensures old(Valid()) && key != "" ==>
                && (o == NullEntry <==> key !in old(contents) && |old(contents)| == old(capacity))
                && (o == Overrun <==> rule.AsWritten? && key in old(contents) && |value| < |old(contents)[key]|)
                && (o == NullEntry ==> Valid() && Repr == old(Repr) && contents == old(contents))
                && (o == Done ==> Valid() && contents == old(contents)[key := value])
                // the table grows before a new key when it is three quarters full
                && capacity == (if o != NullEntry && key !in old(contents) && 4 * |old(contents)| >= 3 * old(capacity)
                                then 2 * old(capacity) else old(capacity))
                // bytes are taken for a new key and for a value that does not fit over the old one
                && (o == Done ==>
                      && arena.image.dead == old(arena.image.dead)
                      && Used(arena.image) == old(Used(arena.image)) +
                           (if key !in old(contents) then |key| + |value|
                            else if |value| > |old(contents)[key]| then |value| else 0))
    {
      hide Sound, Slots, ArenaImage.Valid, ArenaImage.View, StringArena.Valid, TableSteps.Readable, SetOn, Search, Legible;
      Reading();
      if Valid() && key != "" {
        SetSound(hash, rule, Picture(), contents, abandoned, key, value);
      }
      o := Assign(key, value);
      if key != "" && o == Done {
        abandoned := abandoned + Dropped(contents, key, value);
        contents := contents[key := value];
      }
    }

    /** One turn of the rebuild loop: the strings of a live entry, moved to the new arena. */
    method MoveEntry(i: nat, newArena: StringArena, ghost es: seq<Entry>)
      requires Owns() && ArenaImage.Valid(arena.image)
      requires newArena.Valid() && newArena.Repr !! Repr
      requires i < capacity == |es| && table[i..] == es[i..]
      requires ValidEntry(arena.image, es[i]) && !es[i].Empty()
      requires Copied(arena.image, es, newArena.image, table[..i])
      modifies table, newArena.Repr
      ensures Owns() && arena.image == old(arena.image)
      ensures newArena.Valid() && fresh(newArena.Repr - old(newArena.Repr))
      ensures table[i + 1..] == es[i + 1..]
      ensures Copied(arena.image, es, newArena.image, table[..i + 1])
    {
      hide Sound, Core, Represents, Owned, EntriesValid, Slots, Copied;
      hide Total, ArenaImage.Valid, ArenaImage.View, StringArena.Valid;
      ghost var built := table[..i];
      assert table[i] == table[i..][0] == es[i];
      CopyStep(arena.image, es, newArena.image, built);
      var key := arena.View(table[i].key);
      var k := newArena.Store(key);
      table[i] := table[i].(key := k);
      var value := arena.View(table[i].value);
      var v := newArena.Store(value);
      table[i] := table[i].(value := v);
      assert table[..i + 1] == built + [Entry(false, k, v)];
      assert table[i + 1..] == es[i..][1..];
    }

    /** The strings of all live entries, moved to a new arena. */
    method MoveStrings()
      requires Owns() && Core(hash, arena.image, table[..], size, contents, abandoned)
      modifies Repr
      ensures Valid() && fresh(Repr - old(Repr))
      ensures contents == old(contents) && size == old(size) && capacity == old(capacity)
      ensures fresh(arena) && arena.image.dead == 0 && abandoned == 0
      ensures Used(arena.image) == LiveBytes(table[..])
      ensures Allocated(arena.image) <= 2 * LiveBytes(table[..]) + ARENA_BLOCK_SIZE
    {
      hide Sound, Core, Represents, Owned, EntriesValid, Slots, Copied;
      hide Total, ArenaImage.Valid, ArenaImage.View, StringArena.Valid;
      ghost var (a, es) := (arena.image, table[..]);
      var newArena := new StringArena(ARENA_BLOCK_SIZE);
      CoreParts(hash, arena.image, table[..], size, contents, abandoned);
      CopyStart(a, es);
      assert table[..0] == [];
      for i := 0 to capacity
        invariant Owns() && arena.image == a && fresh(newArena.Repr) && newArena.Valid()
        invariant unchanged(this) && table[i..] == es[i..]
        invariant Copied(a, es, newArena.image, table[..i])
      {
        assert table[i] == table[i..][0] == es[i];
        EntryParts(a, es, i);
        if table[i].Empty() {
          CopySkip(a, es, newArena.image, table[..i]);
          assert table[..i + 1] == table[..i] + [es[i]];
          assert table[i + 1..] == es[i..][1..];
          continue;
        }
        MoveEntry(i, newArena, es);
      }
      assert table[..capacity] == table[..];
      CopyDone(hash, a, es, size, contents, abandoned, newArena.image, table[..]);
      arena := newArena;
      abandoned := 0;
      Repr := {this, table} + newArena.Repr;
    }

    /** The strings of a stored key are removed and its slot becomes a tombstone. */
    method Bury(entry: nat, key: string)
      requires Valid() && Holds(View(), entry, key)
      modifies Repr
      ensures Owns() && Repr == old(Repr)
      ensures Core(hash, arena.image, table[..], size, contents, abandoned)
      ensures contents == old(contents) - {key} && capacity == old(capacity)
      ensures key in old(contents) && arena == old(arena)
      ensures arena.image.dead == old(arena.image.dead) + |key| + |old(contents)[key]|
      ensures Allocated(arena.image) == old(Allocated(arena.image))
    {
      hide Sound, Core, Represents, Owned, EntriesValid, Slots, Copied;
      hide Total, ArenaImage.Valid, ArenaImage.View, StringArena.Valid;
      ghost var (a, es) := (arena.image, table[..]);
      Parts(hash, a, es, size, contents, abandoned);
      DeleteCore(hash, a, es, size, contents, abandoned, entry, key);
      LiveEntry(a, es, entry, key);
      RemovedPairKeeps(a, es[entry]);
      var gone := arena.Remove(table[entry].key);
      gone := arena.Remove(table[entry].value);
      table[entry] := BLANK;
      table[entry] := table[entry].(deleted := true);
      size := size - 1;
      contents := contents - {key};
      assert table[..] == es[entry := GRAVE];
    }

    method Remove(key: string) returns (removed: bool)
      requires Valid()
      modifies Repr
      ensures Valid() && fresh(Repr - old(Repr))
      ensures removed <==> key in old(contents)
      ensures contents == old(contents) - {key} && capacity == old(capacity)
      // the arena is rebuilt exactly when half of it is dead, and then holds live bytes only
      ensures arena != old(arena) <==>
                removed && 2 * (old(arena.image.dead) + |key| + |old(contents)[key]|) >= old(Allocated(arena.image))
      ensures arena != old(arena) ==>
                && arena.image.dead == 0 && Used(arena.image) == LiveBytes(table[..])
                && Allocated(arena.image) <= 2 * LiveBytes(table[..]) + ARENA_BLOCK_SIZE
    {
      hide Sound, Core, Represents, Owned, EntriesValid, Slots, Copied;
      hide Total, ArenaImage.Valid, ArenaImage.View, StringArena.Valid;
      Parts(hash, arena.image, table[..], size, contents, abandoned);
      SoundLegible(hash, Picture(), contents, abandoned);
      SearchAnswers(Match, hash, View(), contents, key);
      var entry := GetEntry(Match, table, capacity, arena, hash, key);
      if entry.None? {
        assert contents - {key} == contents;
        return false;
      }
      Bury(entry.value, key);
      var reallocate := arena.ShouldReallocate();
      if reallocate {
        MoveStrings();
      } else {
        CoreRoomy(hash, arena.image, table[..], size, contents, abandoned);
      }
      return true;
    }

    /** Whatever the table stored. */
    method Clear()
      requires Readable()
      modifies Repr
      ensures Valid() && fresh(Repr - old(Repr))
      ensures contents == map[] && capacity == old(capacity)
      ensures size == 0 && abandoned == 0 && arena.image == Empty(ARENA_BLOCK_SIZE)
    {
      hide Sound, Core, Represents, Owned, EntriesValid, Slots, Copied;
      hide Total, ArenaImage.Valid, ArenaImage.View, StringArena.Valid;
      forall i | 0 <= i < capacity {
        table[i] := BLANK;
      }
      arena := new StringArena(ARENA_BLOCK_SIZE);
      size := 0;
      contents, abandoned := map[], 0;
      Repr := {this, table} + arena.Repr;
      StartSound(hash, capacity);
      assert table[..] == seq(capacity, _ => BLANK);
    }
  }
}
