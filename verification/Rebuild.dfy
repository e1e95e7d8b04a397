/**
 * The two rebuilds of the map: all strings moved to a fresh arena (`FastMap::remove`),
 * and all entries rehashed into a larger table (`resize`).  Each is an invariant of
 * the loop, one step, and what the invariant says at the end.
 */
module Rebuild {
  import opened Wrappers
  import opened ArenaImage
  import opened ProbeTable
  import opened MapImage

  lemma {:induction false} LiveBytesAppend(es: seq<Entry>, e: Entry)
    ensures LiveBytes(es + [e]) == LiveBytes(es) + Bytes(e)
  {
    assert (es + [e])[..|es|] == es;
  }

  lemma LiveBytesPrefix(es: seq<Entry>, i: nat)
    requires i < |es|
    ensures LiveBytes(es[..i + 1]) == LiveBytes(es[..i]) + Bytes(es[i])
  {
    assert es[..i + 1] == es[..i] + [es[i]];
    LiveBytesAppend(es[..i], es[i]);
  }

  lemma SlotsPrefix(a: Image, es: seq<Entry>, i: nat)
    requires i < |es|
    ensures Slots(a, es)[..i + 1] == Slots(a, es)[..i] + [SlotOf(a, es[i])]
  {
  }

  lemma {:induction false} CountPrefix(slots: seq<Slot>, i: nat)
    requires i < |slots|
    ensures CountLive(slots[..i + 1]) == CountLive(slots[..i]) + if slots[i].Live? then 1 else 0
  {
    assert slots[..i + 1][..i] == slots[..i];
  }

  // ----- a fresh arena

  /** `built` re-creates the first entries of `es` (whose strings live in `a`) inside arena `n`. */
  ghost predicate Copied(a: Image, es: seq<Entry>, n: Image, built: seq<Entry>) {
    && |built| <= |es|
    && Valid(n) && n.blockSize == ARENA_BLOCK_SIZE && n.dead == 0
    && Owned(n, built)
    && Slots(n, built) == Slots(a, es)[..|built|]
    && LiveBytes(built) == LiveBytes(es[..|built|]) == Total(n.blocks).used
  }

  lemma CopyStart(a: Image, es: seq<Entry>)
    ensures Copied(a, es, Empty(ARENA_BLOCK_SIZE), [])
  {
    EmptyValid(ARENA_BLOCK_SIZE);
  }

  lemma CopySkip(a: Image, es: seq<Entry>, n: Image, built: seq<Entry>)
    requires Copied(a, es, n, built) && |built| < |es|
    requires ValidEntry(a, es[|built|]) && es[|built|].Empty()
    ensures Copied(a, es, n, built + [es[|built|]])
  {
    var i := |built|;
    assert Spares(n, BLANK, n, es[i]);
    OwnedAppend(n, built, n, es[i]);
    LiveBytesPrefix(es, i);
    LiveBytesAppend(built, es[i]);
    SlotsPrefix(a, es, i);
  }

  lemma CopyStep(a: Image, es: seq<Entry>, n: Image, built: seq<Entry>)
    requires Valid(a)
    requires Copied(a, es, n, built) && |built| < |es|
    requires ValidEntry(a, es[|built|]) && !es[|built|].Empty()
    ensures var e := es[|built|];
            && |View(a, e.key)| == e.key.size && |View(a, e.value)| == e.value.size
            && var (n', e') := StoredPair(n, View(a, e.key), View(a, e.value));
               Copied(a, es, n', built + [e'])
  {
    var i := |built|;
    var e := es[i];
    ViewSize(a, e.key);
    ViewSize(a, e.value);
    StoredPairKeeps(n, View(a, e.key), View(a, e.value));
    var (n', e') := StoredPair(n, View(a, e.key), View(a, e.value));
    OwnedAppend(n, built, n', e');
    LiveBytesPrefix(es, i);
    LiveBytesAppend(built, e');
    SlotsPrefix(a, es, i);
  }

  /** A complete copy is the same map; it holds the live bytes and nothing else. */
  lemma CopyDone(hash: Hash, a: Image, es: seq<Entry>, size: nat, contents: map<string, string>, abandoned: nat,
                 n: Image, built: seq<Entry>)
    requires Core(hash, a, es, size, contents, abandoned)
    requires Copied(a, es, n, built) && |built| == |es|
    ensures Sound(hash, n, built, size, contents, 0)
    ensures n.dead == 0 && Total(n.blocks).used == LiveBytes(built) == LiveBytes(es)
    ensures Total(n.blocks).capacity <= 2 * LiveBytes(es) + ARENA_BLOCK_SIZE
  {
    assert Slots(a, es)[..|es|] == Slots(a, es);
    assert es[..|es|] == es;
    FragmentationBound(n);
    TotalsBounded(n.blockSize, n.blocks);
    ProductGrows(1, |n.blocks|, n.blockSize);
  }

  // ----- a larger table

  /** The live entries among the first `i` of `es` have been placed in `table`, which stores `done`. */
  ghost predicate Rehashed(hash: Hash, a: Image, es: seq<Entry>, contents: map<string, string>,
                           i: nat, table: seq<Entry>, done: map<string, string>) {
    && i <= |es|
    && Owned(a, table)
    && Represents(hash, Slots(a, table), done)
    && (forall j :: 0 <= j < |table| ==> Placed(es, i, table[j]))
    && LiveBytes(table) == LiveBytes(es[..i])
    && CountLive(Slots(a, table)) == CountLive(Slots(a, es)[..i])
    && Collected(Slots(a, es), contents, i, done)
  }

  /** `done` is the part of `contents` that the first `i` slots store. */
  ghost predicate Collected(slots: seq<Slot>, contents: map<string, string>, i: nat, done: map<string, string>)
    requires i <= |slots|
  {
    && (forall k :: k in done ==> k in contents && contents[k] == done[k])
    && (forall j :: 0 <= j < i && slots[j].Live? ==> slots[j].key in done)
    && (forall k :: k in done ==> exists j: nat :: j < i && Holds(slots, j, k))
  }

  lemma CollectedSkip(slots: seq<Slot>, contents: map<string, string>, i: nat, done: map<string, string>)
    requires i < |slots| && !slots[i].Live? && Collected(slots, contents, i, done)
    ensures Collected(slots, contents, i + 1, done)
  {
    forall k | k in done ensures exists j: nat :: j < i + 1 && Holds(slots, j, k) {
      var j: nat :| j < i && Holds(slots, j, k);
      assert j < i + 1;
    }
  }

  lemma CollectedStep(slots: seq<Slot>, contents: map<string, string>, i: nat, done: map<string, string>)
    requires i < |slots| && slots[i].Live? && Collected(slots, contents, i, done)
    requires slots[i].key in contents && contents[slots[i].key] == slots[i].value
    ensures Collected(slots, contents, i + 1, done[slots[i].key := slots[i].value])
  {
    var done' := done[slots[i].key := slots[i].value];
    forall k | k in done' ensures exists j: nat :: j < i + 1 && Holds(slots, j, k) {
      if k == slots[i].key {
        assert Holds(slots, i, k);
      } else {
        var j: nat :| j < i && Holds(slots, j, k);
        assert j < i + 1;
      }
    }
  }

  lemma CollectedAll(hash: Hash, slots: seq<Slot>, contents: map<string, string>, done: map<string, string>)
    requires Represents(hash, slots, contents) && Collected(slots, contents, |slots|, done)
    ensures done == contents
  {
    forall k | k in contents ensures k in done {
      var j: nat :| Holds(slots, j, k);
      assert slots[j].key in done;
    }
  }

  /** The entry is blank, or is one of the first `i` live entries of `es`. */
  ghost predicate Placed(es: seq<Entry>, i: nat, e: Entry)
    requires i <= |es|
  {
    e == BLANK || (!e.Empty() && exists j :: 0 <= j < i && es[j] == e)
  }

  lemma RehashStart(hash: Hash, a: Image, es: seq<Entry>, contents: map<string, string>, capacity: nat)
    requires Valid(a) && capacity > 0
    ensures Rehashed(hash, a, es, contents, 0, seq(capacity, _ => BLANK), map[])
  {
    BlankTable(a, capacity);
    AllFree(hash, Slots(a, seq(capacity, _ => BLANK)));
  }

  lemma RehashSkip(hash: Hash, a: Image, es: seq<Entry>, contents: map<string, string>,
                   i: nat, table: seq<Entry>, done: map<string, string>)
    requires Rehashed(hash, a, es, contents, i, table, done) && i < |es|
    requires ValidEntry(a, es[i]) && es[i].Empty()
    ensures Rehashed(hash, a, es, contents, i + 1, table, done)
  {
    LiveBytesPrefix(es, i);
    CountPrefix(Slots(a, es), i);
    CollectedSkip(Slots(a, es), contents, i, done);
    forall j | 0 <= j < |table| ensures Placed(es, i + 1, table[j]) {
      assert Placed(es, i, table[j]);
    }
  }

  /** The key about to be placed is not there yet. */
  lemma RehashAbsent(hash: Hash, a: Image, es: seq<Entry>, contents: map<string, string>,
                     i: nat, table: seq<Entry>, done: map<string, string>)
    requires Rehashed(hash, a, es, contents, i, table, done) && i < |es|
    requires Represents(hash, Slots(a, es), contents) && !es[i].Empty()
    ensures Slots(a, es)[i] == Live(View(a, es[i].key), View(a, es[i].value))
    ensures View(a, es[i].key) !in done
    ensures View(a, es[i].key) in contents && contents[View(a, es[i].key)] == View(a, es[i].value)
  {
    var key := View(a, es[i].key);
    assert Holds(Slots(a, es), i, key);
    FoundUnique(hash, Slots(a, es), contents, key, i);
  }

  lemma NoTombstones(a: Image, es: seq<Entry>, i: nat, table: seq<Entry>)
    requires i <= |es|
    requires forall j :: 0 <= j < |table| ==> Placed(es, i, table[j])
    ensures forall j :: 0 <= j < |table| ==> Slots(a, table)[j] != Tombstone
  {
    forall j | 0 <= j < |table| ensures Slots(a, table)[j] != Tombstone {
      assert Placed(es, i, table[j]);
    }
  }

  /** A free slot remains for every entry still to be placed. */
  lemma RehashRoom(hash: Hash, a: Image, es: seq<Entry>, contents: map<string, string>,
                   i: nat, table: seq<Entry>, done: map<string, string>, home: nat, r: Option<nat>)
    requires Rehashed(hash, a, es, contents, i, table, done) && i < |es| < |table|
    requires home < |table| && FirstFree(Slots(a, table), home, r)
    ensures r.Some? && r.value < |table|
  {
    hide Represents, Owned, Slots, Collected, LiveBytes, CountLive;
    var slots := Slots(a, table);
    NoTombstones(a, es, i, table);
    CountBounds(Slots(a, es)[..i]);
    CountBounds(slots);
    assert forall j :: 0 <= j < |slots| && slots[j] != Free ==> slots[j].Live?;
  }

  lemma PlacedApart(a: Image, es: seq<Entry>, i: nat, e: Entry)
    requires Owned(a, es) && i < |es| && Placed(es, i, e)
    ensures Apart(e, es[i]) && Apart(es[i], e)
  {
    if e != BLANK {
      var j :| 0 <= j < i && es[j] == e;
      assert Apart(es[j], es[i]);
    }
    ApartSymmetric(e, es[i]);
  }

  lemma RehashOwned(a: Image, es: seq<Entry>, i: nat, table: seq<Entry>, slot: nat)
    requires Owned(a, es) && i < |es| && !es[i].Empty()
    requires Owned(a, table) && slot < |table|
    requires forall j :: 0 <= j < |table| ==> Placed(es, i, table[j])
    ensures Owned(a, table[slot := es[i]])
    ensures var table' := table[slot := es[i]];
            forall j :: 0 <= j < |table'| ==> Placed(es, i + 1, table'[j])
    ensures Slots(a, table[slot := es[i]]) == Slots(a, table)[slot := SlotOf(a, es[i])]
  {
    var table' := table[slot := es[i]];
    forall j | 0 <= j < |table|
      ensures Apart(table[j], es[i]) && Apart(es[i], table[j])
      ensures Placed(es, i + 1, table[j])
    {
      assert Placed(es, i, table[j]);
      PlacedApart(a, es, i, table[j]);
    }
    assert Placed(es, i + 1, es[i]);
    forall j, k | 0 <= j < k < |table'| ensures Apart(table'[j], table'[k]) {
      if j != slot && k != slot {
        assert Apart(table[j], table[k]);
      }
    }
  }

  lemma RehashCounts(a: Image, es: seq<Entry>, i: nat, table: seq<Entry>, slot: nat)
    requires i < |es| && !es[i].Empty()
    requires slot < |table| && table[slot] == BLANK
    requires LiveBytes(table) == LiveBytes(es[..i])
    requires CountLive(Slots(a, table)) == CountLive(Slots(a, es)[..i])
    ensures LiveBytes(table[slot := es[i]]) == LiveBytes(es[..i + 1])
    ensures CountLive(Slots(a, table)[slot := SlotOf(a, es[i])]) == CountLive(Slots(a, es)[..i + 1])
  {
    CountUpdate(Slots(a, table), slot, SlotOf(a, es[i]));
    LiveBytesUpdate(table, slot, es[i]);
    LiveBytesPrefix(es, i);
    CountPrefix(Slots(a, es), i);
  }

  lemma RehashStep(hash: Hash, a: Image, es: seq<Entry>, contents: map<string, string>,
                   i: nat, table: seq<Entry>, done: map<string, string>, slot: nat)
    requires Rehashed(hash, a, es, contents, i, table, done) && i < |es|
    requires Owned(a, es) && Represents(hash, Slots(a, es), contents) && !es[i].Empty()
    requires |table| > 0 && FirstFree(Slots(a, table), Home(hash, View(a, es[i].key), |table|), Some(slot))
    ensures View(a, es[i].key) in contents
    ensures Rehashed(hash, a, es, contents, i + 1, table[slot := es[i]],
                     done[View(a, es[i].key) := View(a, es[i].value)])
  {
    RehashAbsent(hash, a, es, contents, i, table, done);
    RehashOwned(a, es, i, table, slot);
    assert ValidEntry(a, table[slot]);
    RehashCounts(a, es, i, table, slot);
    Insert(hash, Slots(a, table), done, slot, View(a, es[i].key), View(a, es[i].value));
    CollectedStep(Slots(a, es), contents, i, done);
  }

  /** The finished table stores the same map, without tombstones, at no more than the old load. */
  lemma RehashDone(hash: Hash, a: Image, es: seq<Entry>, size: nat, contents: map<string, string>, abandoned: nat,
                   table: seq<Entry>, done: map<string, string>)
    requires Sound(hash, a, es, size, contents, abandoned)
    requires Rehashed(hash, a, es, contents, |es|, table, done)
    requires |table| == 2 * |es|
    ensures done == contents
    ensures Sound(hash, a, table, size, contents, abandoned)
    ensures forall j :: 0 <= j < |table| ==> Slots(a, table)[j] != Tombstone
  {
    assert es[..|es|] == es;
    assert Slots(a, es)[..|es|] == Slots(a, es);
    CollectedAll(hash, Slots(a, es), contents, done);
    NoTombstones(a, es, |es|, table);
  }
}
