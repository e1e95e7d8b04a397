/**
 * What `set("", v)` does.  An entry with an empty key looks like an empty slot
 * (server/include/attokv_server/map.h:27-29), so the pair is never found again; the slot it takes turns
 * free, which can hide keys that were pushed past it; its value stays behind for the next key that comes
 * to the slot; and the size counts a key that is not there.
 */
module EmptyKey {
  import opened Wrappers
  import opened ArenaImage
  import opened ProbeTable
  import opened MapImage
  import opened TableSteps

  /** No sound table stores an empty key. */
  lemma EmptyKeyNeverFound(hash: Hash, a: Image, es: seq<Entry>, size: nat, contents: map<string, string>, abandoned: nat)
    requires Sound(hash, a, es, size, contents, abandoned)
    ensures "" !in contents
  {
    if "" in contents {
      var i: nat :| Holds(Slots(a, es), i, "");
      assert ValidEntry(a, es[i]);
      ViewSize(a, es[i].key);
    }
  }

  /** Where `set("", v)` puts its entry. */
  function Place(hash: Hash, t: Table): Option<nat>
    requires |t.entries| > 0
  {
    Search(MatchOrFree, hash, Prepared(hash, t, "").View(), "")
  }

  /** The entry that it leaves: no key, but the value. */
  function Phantom(value: StringRef): Entry {
    Entry(false, NULL_REF, value)
  }

  /** The table with a phantom at `i` instead of a vacant entry: all its other slots are as before. */
  predicate Haunted(t: Table, i: nat, value: string, t': Table)
    requires Valid(t.image)
  {
    && i < |t.entries|
    && var (a, v) := Stored(t.image, value);
       t' == Table(a, t.entries[i := Phantom(v)], t.size + 1) && t'.View() == t.View()[i := Free]
  }

  lemma PutPhantom(rule: TailRule, t: Table, i: nat, value: string)
    requires Legible(t) && i < |t.entries| && |value| < WORD32
    requires t.entries[i] == BLANK || t.entries[i] == GRAVE
    ensures Legible(PutKey(t, i, "")) && ValidRef(PutKey(t, i, "").image, PutKey(t, i, "").entries[i].value)
    ensures var (o, t') := PutValue(rule, PutKey(t, i, ""), i, value);
            o == Done && Haunted(t, i, value, t')
  {
    hide Valid, WithRoom;
    PutKeyLegible(t, i, "");
    StoredKeeps(t.image, value);
    var (a, v) := Stored(t.image, value);
    var t' := PutValue(rule, PutKey(t, i, ""), i, value).1;
    assert t'.entries == t.entries[i := Phantom(v)];
    forall j | 0 <= j < |t.entries| ensures t'.View()[j] == t.View()[i := Free][j] {
      assert ReadableEntry(t.image, t.entries[j]);
    }
    assert t'.View() == t.View()[i := Free];
  }

  /** The whole effect of `set("", v)` on a sound table: it meets a null entry exactly when the table is full;
      otherwise, after the table has grown as for any new key, the first vacant slot on the way of "" becomes
      free, and the size is one more than the number of keys. */
  lemma EmptyKeySet(hash: Hash, rule: TailRule, t: Table, contents: map<string, string>, abandoned: nat, value: string)
    requires Sound(hash, t.image, t.entries, t.size, contents, abandoned) && |value| < WORD32
    ensures Legible(t) && Valid(Prepared(hash, t, "").image)
    ensures var ((o, t'), base) := (SetOn(hash, rule, t, "", value), Prepared(hash, t, ""));
            && o == (if t.size == |t.entries| then NullEntry else Done)
            && (o == Done ==>
                  && base == (if 4 * t.size >= 3 * |t.entries| then Grown(hash, t) else t)
                  && Sound(hash, base.image, base.entries, base.size, contents, abandoned)
                  && Place(hash, t).Some? && FirstVacant(base.View(), Home(hash, "", |base.entries|), Place(hash, t))
                  && Haunted(base, Place(hash, t).value, value, t')
                  && CountLive(t'.View()) == |contents| == t'.size - 1)
  {
    hide Sound, Search, Legible, Refill, Haunted, Stored, Valid, SetOn, PutKey, PutValue, Prepared, Grown, FirstVacant, CountLive;
    SoundLegible(hash, t, contents, abandoned);
    Usable(t);
    PreparedSound(hash, t, "", contents, abandoned);
    Usable(Prepared(hash, t, ""));
    EmptyKeyNeverFound(hash, t.image, t.entries, t.size, contents, abandoned);
    var found := VacantPlace(hash, t, contents, abandoned);
    if found.None? {
      NotPlaced(hash, t, "");
    } else {
      PlacedVacant(hash, rule, t, "", value);
      var base := Prepared(hash, t, "");
      var place := VacantPlace(hash, base, contents, abandoned);
      PutPhantom(rule, base, place.value, value);
      StillCounted(base, place.value, SetOn(hash, rule, t, "", value).1, value);
    }
  }

  lemma VacantPlace(hash: Hash, t: Table, contents: map<string, string>, abandoned: nat) returns (found: Option<nat>)
    requires Sound(hash, t.image, t.entries, t.size, contents, abandoned) && Legible(t) && "" !in contents
    ensures t.size <= |t.entries|
    ensures found == Search(MatchOrFree, hash, t.View(), "") && t.size == |contents| == CountLive(t.View())
    ensures FirstVacant(t.View(), Home(hash, "", |t.entries|), found) && (found.None? <==> t.size == |t.entries|)
    ensures found.Some? ==> t.entries[found.value] == BLANK || t.entries[found.value] == GRAVE
    ensures found.Some? ==> Vacant(hash, t, "")
  {
    hide Sound, Represents, Owned, TableSteps.Readable, EntriesValid;
    Parts(hash, t.image, t.entries, t.size, contents, abandoned);
    SearchAnswers(MatchOrFree, hash, t.View(), contents, "");
    found := Search(MatchOrFree, hash, t.View(), "");
    VacancyExists(t.View(), Home(hash, "", |t.entries|), found);
    if found.Some? {
      VacantEntry(t.image, t.entries, found.value);
    }
  }

  lemma StillCounted(t: Table, i: nat, t': Table, value: string)
    requires Valid(t.image) && Haunted(t, i, value, t') && !t.View()[i].Live?
    ensures CountLive(t'.View()) == CountLive(t.View()) && t'.size == t.size + 1
  {
    CountUpdate(t.View(), i, Free);
  }

  // ----- what is still found

  /** The slot `i` lies on the way from the home of a stored key to the key. */
  predicate Hides(hash: Hash, slots: seq<Slot>, key: string, i: nat)
    requires i < |slots|
  {
    var (home, found) := (Home(hash, key, |slots|), Search(Match, hash, slots, key));
    found.Some? && Dist(home, i, |slots|) < Dist(home, found.value, |slots|)
  }

  lemma {:induction false} ProbeSkips(slots: seq<Slot>, home: nat, key: string, from: nat, to: nat)
    requires home < |slots| && from <= to < |slots|
    requires forall d: nat :: from <= d < to ==> slots[At(home, d, |slots|)] != Free && !Holds(slots, At(home, d, |slots|), key)
    ensures Probe(Match, slots, home, key, from, None) == Probe(Match, slots, home, key, to, None)
    decreases |slots| - from
  {
    if from < to {
      assert slots[At(home, from, |slots|)] != Free;
      ProbeSkips(slots, home, key, from + 1, to);
    }
  }

  /** A vacant slot turned free: exactly the keys that it lies on the way of are lost. */
  lemma FreedSearch(hash: Hash, slots: seq<Slot>, contents: map<string, string>, i: nat, key: string)
    requires Represents(hash, slots, contents) && i < |slots| && !slots[i].Live?
    ensures Search(Match, hash, slots[i := Free], key) ==
            if key in contents && !Hides(hash, slots, key, i) then Search(Match, hash, slots, key) else None
  {
    var (slots', n, home) := (slots[i := Free], |slots|, Home(hash, key, |slots|));
    SearchAnswers(Match, hash, slots, contents, key);
    if key in contents {
      var j := Search(Match, hash, slots, key).value;
      FoundUnique(hash, slots, contents, key, j);
      assert Reachable(slots, home, j);
      var d := if Hides(hash, slots, key, i) then Dist(home, i, n) else Dist(home, j, n);
      forall e: nat | e < d ensures slots'[At(home, e, n)] != Free && !Holds(slots', At(home, e, n), key) {
        assert slots[At(home, e, n)] != Free;
        assert Dist(home, At(home, e, n), n) == e;
      }
      ProbeSkips(slots', home, key, 0, d);
    } else {
      var steps := ProbeSettles(Match, slots', home, key, 0, None);
      assert forall j: nat :: Holds(slots', j, key) ==> Holds(slots, j, key);
    }
  }

  /** After `set("", v)`, the empty key is not found, and another key is found, with its value, exactly when
      the slot that was taken does not lie on its way. */
  lemma EmptyKeyGets(hash: Hash, rule: TailRule, t: Table, contents: map<string, string>, abandoned: nat,
                     value: string, key: string)
    requires Sound(hash, t.image, t.entries, t.size, contents, abandoned) && |value| < WORD32
    requires t.size < |t.entries|
    ensures Legible(t) && |SetOn(hash, rule, t, "", value).1.entries| > 0 && Place(hash, t).Some?
    ensures GetOn(hash, SetOn(hash, rule, t, "", value).1, key) ==
            if key in contents && !Hides(hash, Prepared(hash, t, "").View(), key, Place(hash, t).value)
            then Some(contents[key]) else None
    ensures GetOn(hash, SetOn(hash, rule, t, "", value).1, "") == None
  {
    hide Sound, Search, Legible, Stored, Valid, SetOn, Prepared, Grown, FirstVacant, Represents;
    EmptyKeySet(hash, rule, t, contents, abandoned, value);
    EmptyKeyNeverFound(hash, t.image, t.entries, t.size, contents, abandoned);
    var (t', base, i) := (SetOn(hash, rule, t, "", value).1, Prepared(hash, t, ""), Place(hash, t).value);
    HauntedGet(hash, base, contents, abandoned, i, value, t', key);
    HauntedGet(hash, base, contents, abandoned, i, value, t', "");
  }

  lemma HauntedGet(hash: Hash, t: Table, contents: map<string, string>, abandoned: nat, i: nat, value: string,
                   t': Table, key: string)
    requires Sound(hash, t.image, t.entries, t.size, contents, abandoned) && Valid(t.image) && |value| < WORD32
    requires Haunted(t, i, value, t') && FirstVacant(t.View(), Home(hash, "", |t.entries|), Some(i))
    ensures GetOn(hash, t', key) ==
            if key in contents && !Hides(hash, t.View(), key, i) then Some(contents[key]) else None
  {
    hide Sound, Search, Stored, Valid, Represents;
    Parts(hash, t.image, t.entries, t.size, contents, abandoned);
    FreedSearch(hash, t.View(), contents, i, key);
    if key in contents && !Hides(hash, t.View(), key, i) {
      SearchAnswers(Match, hash, t.View(), contents, key);
      var j := Search(Match, hash, t.View(), key).value;
      FoundUnique(hash, t.View(), contents, key, j);
      assert t'.View()[j] == t.View()[j];
    }
  }

  /** All keys are still found exactly when none of them is hidden.  In a table that has just grown, and when
      the slot was free before, none is. */
  lemma EmptyKeyHarmless(hash: Hash, rule: TailRule, t: Table, contents: map<string, string>, abandoned: nat,
                         value: string)
    requires Sound(hash, t.image, t.entries, t.size, contents, abandoned) && |value| < WORD32
    requires t.size < |t.entries|
    ensures Legible(t) && |SetOn(hash, rule, t, "", value).1.entries| > 0 && Place(hash, t).Some?
    ensures var (t', base, i) := (SetOn(hash, rule, t, "", value).1, Prepared(hash, t, ""), Place(hash, t).value);
            && ((forall k :: k in contents ==> GetOn(hash, t', k) == Some(contents[k])) <==>
                forall k :: k in contents ==> !Hides(hash, base.View(), k, i))
            && ((4 * t.size >= 3 * |t.entries| || base.View()[i] == Free) ==>
                forall k :: k in contents ==> !Hides(hash, base.View(), k, i))
  {
    hide Sound, Search, Legible, Stored, Valid, SetOn, Prepared, Grown, Represents, Hides, GetOn, Haunted;
    EmptyKeySet(hash, rule, t, contents, abandoned, value);
    EmptyKeyGets(hash, rule, t, contents, abandoned, value, "");
    var (t', base, i) := (SetOn(hash, rule, t, "", value).1, Prepared(hash, t, ""), Place(hash, t).value);
    forall k | k in contents ensures GetOn(hash, t', k) == Some(contents[k]) <==> !Hides(hash, base.View(), k, i) {
      EmptyKeyGets(hash, rule, t, contents, abandoned, value, k);
    }
    Parts(hash, base.image, base.entries, base.size, contents, abandoned);
    if 4 * t.size >= 3 * |t.entries| {
      GrownFree(hash, t, contents, abandoned, i);
    }
    if base.View()[i] == Free {
      FreeHidesNone(hash, base.View(), contents, i);
    }
  }

  lemma GrownFree(hash: Hash, t: Table, contents: map<string, string>, abandoned: nat, i: nat)
    requires Sound(hash, t.image, t.entries, t.size, contents, abandoned) && |t.entries| > 0
    ensures i < 2 * |t.entries| && !Grown(hash, t).View()[i].Live? ==> Grown(hash, t).View()[i] == Free
  {
    hide Sound;
    RefillSound(hash, t.image, t.entries, t.size, contents, abandoned);
  }

  lemma FreeHidesNone(hash: Hash, slots: seq<Slot>, contents: map<string, string>, i: nat)
    requires Represents(hash, slots, contents) && i < |slots| && slots[i] == Free
    ensures forall k :: k in contents ==> !Hides(hash, slots, k, i)
  {
    forall k | k in contents ensures !Hides(hash, slots, k, i) {
      var home := Home(hash, k, |slots|);
      SearchAnswers(Match, hash, slots, contents, k);
      var j := Search(Match, hash, slots, k).value;
      FoundUnique(hash, slots, contents, k, j);
      assert Reachable(slots, home, j);
      assert At(home, Dist(home, i, |slots|), |slots|) == i;
    }
  }

  /** A table where it does harm: "a" was pushed to slot 1 by a key since removed from slot 0, the slot
      that `set("", v)` takes. */
  lemma EmptyKeyHidesAnother()
    ensures var hash: Hash := _ => 0;
            var slots := [Tombstone, Live("a", "1"), Free, Free];
            && Represents(hash, slots, map["a" := "1"])
            && Search(MatchOrFree, hash, slots, "") == Some(0)
            && Hides(hash, slots, "a", 0)
            && Search(Match, hash, slots[0 := Free], "a") == None
  {
    var hash: Hash := _ => 0;
    var slots := [Tombstone, Live("a", "1"), Free, Free];
    var m := map["a" := "1"];
    assert Home(hash, "a", 4) == Home(hash, "", 4) == 0;
    forall i | 0 <= i < |slots| && slots[i].Live? ensures Reachable(slots, Home(hash, slots[i].key, |slots|), i) {
      assert i == 1;
    }
    assert Holds(slots, 1, "a");
    assert Represents(hash, slots, m);
    SearchAnswers(Match, hash, slots, m, "a");
    FoundUnique(hash, slots, m, "a", 1);
    SearchAnswers(MatchOrFree, hash, slots, m, "");
    FirstIsHome(slots, 0, Search(MatchOrFree, hash, slots, ""));
    FreedSearch(hash, slots, m, 0, "a");
  }

  lemma FirstIsHome(slots: seq<Slot>, home: nat, found: Option<nat>)
    requires home < |slots| && !slots[home].Live? && FirstVacant(slots, home, found)
    ensures found == Some(home)
  {
    assert At(home, 0, |slots|) == home;
  }

  // ----- the value that stays behind

  /** A new key that comes to the slot finds the old value there: as written, a shorter value overruns, although
      the key was never stored before. */
  lemma LeftoverValue(hash: Hash, rule: TailRule, t: Table, contents: map<string, string>, abandoned: nat, value: string,
                      key: string, other: string)
    requires Sound(hash, t.image, t.entries, t.size, contents, abandoned) && |value| < WORD32
    requires t.size < |t.entries| && |key| < WORD32 && |other| < WORD32
    ensures Legible(t) && Legible(SetOn(hash, rule, t, "", value).1) && Place(hash, t).Some?
    ensures var t' := SetOn(hash, rule, t, "", value).1;
            Search(MatchOrFree, hash, t'.View(), key) == Place(hash, t) && 4 * t'.size < 3 * |t'.entries| ==>
              SetOn(hash, rule, t', key, other).0 == if rule.AsWritten? && |other| < |value| then Overrun else Done
  {
    hide Sound, Search, Valid, SetOn, Prepared, Grown, FirstVacant, Stored;
    EmptyKeySet(hash, rule, t, contents, abandoned, value);
    SetLegible(hash, rule, t, "", value);
    var (t', base, i) := (SetOn(hash, rule, t, "", value).1, Prepared(hash, t, ""), Place(hash, t).value);
    StoredKeeps(t.image, value);
    if Search(MatchOrFree, hash, t'.View(), key) == Some(i) && 4 * t'.size < 3 * |t'.entries| {
      PlacedVacant(hash, rule, t', key, other);
      PutKeyLegible(t', i, key);
      PutOver(rule, PutKey(t', i, key), i, other);
    }
  }

  lemma PutOver(rule: TailRule, t: Table, i: nat, value: string)
    requires Legible(t) && i < |t.entries| && |value| < WORD32
    ensures ValidRef(t.image, t.entries[i].value)
    ensures PutValue(rule, t, i, value).0 == if rule.AsWritten? && |value| < t.entries[i].value.size then Overrun else Done
  {
    PutValueLegible(rule, t, i, value);
    if |value| <= t.entries[i].value.size {
      OverwriteSafety(rule, t.image, t.entries[i].value, value);
    }
  }

  /** Two calls on a fresh table: for the plain map the key is new, but as written a shorter value overruns
      when the key shares its home with "". */
  lemma LeftoverOverruns(hash: Hash, rule: TailRule, capacity: nat, value: string, key: string, other: string)
    requires capacity >= 2 && Home(hash, key, capacity) == Home(hash, "", capacity)
    requires |value| < WORD32 && |key| < WORD32 && |other| < WORD32
    ensures var t := Start(capacity);
            && Sound(hash, t.image, t.entries, t.size, map[], 0) && Legible(t)
            && Legible(SetOn(hash, rule, t, "", value).1)
            && SetOn(hash, rule, SetOn(hash, rule, t, "", value).1, key, other).0
               == if rule.AsWritten? && |other| < |value| then Overrun else Done
  {
    hide Sound, Valid, SetOn, FirstVacant, Stored, Search, Legible, Grown, Start;
    var t := Start(capacity);
    StartTable(hash, capacity);
    EmptyKeySet(hash, rule, t, map[], 0, value);
    var t' := SetOn(hash, rule, t, "", value).1;
    FreeHome(hash, t.View(), "");
    FreeHome(hash, t'.View(), key);
    LeftoverValue(hash, rule, t, map[], 0, value, key, other);
  }

  /** A fresh table. */
  function Start(capacity: nat): Table {
    Table(Empty(ARENA_BLOCK_SIZE), Blank(capacity), 0)
  }

  lemma StartTable(hash: Hash, capacity: nat)
    requires capacity > 0
    ensures var t := Start(capacity);
            && Sound(hash, t.image, t.entries, t.size, map[], 0) && Legible(t)
            && t.size == 0 && |t.entries| == capacity
            && forall i :: 0 <= i < capacity ==> t.View()[i] == Free
  {
    hide Sound, Legible;
    StartSound(hash, capacity);
    SoundLegible(hash, Start(capacity), map[], 0);
  }

  lemma FreeHome(hash: Hash, slots: seq<Slot>, key: string)
    requires |slots| > 0 && slots[Home(hash, key, |slots|)] == Free
    ensures Search(MatchOrFree, hash, slots, key) == Some(Home(hash, key, |slots|))
  {
  }

  // ----- the keys that are not there

  /** The table after `set("", value)` has been called `n` times. */
  function Repeated(hash: Hash, rule: TailRule, t: Table, value: string, n: nat): (t': Table)
    requires Legible(t) && |value| < WORD32
    ensures Legible(t')
  {
    if n == 0 then t
    else
      var before := Repeated(hash, rule, t, value, n - 1);
      SetLegible(hash, rule, before, "", value);
      SetOn(hash, rule, before, "", value).1
  }

  /** Every slot is free, and what values are left have one size. */
  predicate Barren(t: Table, size: nat) {
    && Legible(t)
    && forall i :: 0 <= i < |t.entries| ==>
         t.entries[i].Empty() && !t.entries[i].deleted && (t.entries[i].value.size == 0 || t.entries[i].value.size == size)
  }

  lemma {:induction false} RefillNone(hash: Hash, a: Image, es: seq<Entry>, i: nat, table: seq<Entry>)
    requires i <= |es| && |table| > 0 && forall j :: 0 <= j < |es| ==> es[j].Empty()
    ensures Refill(hash, a, es, i, table) == table
    decreases |es| - i
  {
    if i < |es| {
      RefillNone(hash, a, es, i + 1, table);
    }
  }

  lemma BarrenHome(hash: Hash, t: Table, size: nat, key: string)
    requires Barren(t, size)
    ensures Search(MatchOrFree, hash, t.View(), key) == Some(Home(hash, key, |t.entries|))
    ensures Vacant(hash, t, key) && GetOn(hash, t, key) == None
  {
    assert t.View()[Home(hash, key, |t.entries|)] == Free;
    FreeHome(hash, t.View(), key);
  }

  lemma BarrenGrown(hash: Hash, t: Table, size: nat)
    requires Barren(t, size)
    ensures Barren(Prepared(hash, t, ""), size)
    ensures |Prepared(hash, t, "").entries| == if 4 * t.size >= 3 * |t.entries| then 2 * |t.entries| else |t.entries|
  {
    BarrenHome(hash, t, size, "");
    PreparedLegible(hash, t, "");
    RefillNone(hash, t.image, t.entries, 0, Blank(2 * |t.entries|));
  }

  lemma BarrenPut(rule: TailRule, t: Table, i: nat, value: string)
    requires Barren(t, |value|) && i < |t.entries| && |value| < WORD32
    ensures Legible(PutKey(t, i, "")) && ValidRef(PutKey(t, i, "").image, PutKey(t, i, "").entries[i].value)
    ensures var (o, t') := PutValue(rule, PutKey(t, i, ""), i, value);
            o == Done && Barren(t', |value|) && t'.size == t.size + 1 && |t'.entries| == |t.entries|
  {
    hide Valid, WithRoom;
    PutKeyLegible(t, i, "");
    PutValueLegible(rule, PutKey(t, i, ""), i, value);
    PutOver(rule, PutKey(t, i, ""), i, value);
    var ref := t.entries[i].value;
    if |value| <= ref.size {
      OverwrittenKeeps(rule, t.image, ref, value);
    } else {
      StoredKeeps(t.image, value);
    }
  }

  /** Every call counts a key, and the table that stores none grows with the count. */
  lemma {:induction false} Phantoms(hash: Hash, rule: TailRule, capacity: nat, value: string, n: nat, key: string)
    requires capacity > 0 && |value| < WORD32
    ensures Legible(Start(capacity))
    ensures var t := Repeated(hash, rule, Start(capacity), value, n);
            && Barren(t, |value|) && t.size == n && GetOn(hash, t, key) == None
            && (n > 0 ==> 4 * (n - 1) < 3 * |t.entries|)
  {
    hide Valid, SetOn, Search, Legible, PutKey, PutValue, Prepared, Empty, GetOn;
    var start := Start(capacity);
    StartTable(hash, capacity);
    if n > 0 {
      Phantoms(hash, rule, capacity, value, n - 1, key);
      var t := Repeated(hash, rule, start, value, n - 1);
      SetLegible(hash, rule, t, "", value);
      BarrenHome(hash, t, |value|, "");
      BarrenGrown(hash, t, |value|);
      var base := Prepared(hash, t, "");
      BarrenHome(hash, base, |value|, "");
      PlacedVacant(hash, rule, t, "", value);
      BarrenPut(rule, base, Home(hash, "", |base.entries|), value);
    }
    BarrenHome(hash, Repeated(hash, rule, start, value, n), |value|, key);
  }
}
