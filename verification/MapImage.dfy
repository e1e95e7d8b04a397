/**
 * The hash map as a value: a table of entries whose references live in an arena.
 * `Sound` ties together the probe chains, the ownership of bytes, the load of the
 * table and the accounting of bytes; the lemmas show that every step of `FastMap` keeps it.
 */
module MapImage {
  import opened Wrappers
  import opened ArenaImage
  import opened ProbeTable

  const ARENA_BLOCK_SIZE: nat := 65536

  datatype Entry = Entry(deleted: bool, key: StringRef, value: StringRef) {
    predicate Empty() { key.size == 0 }
  }

  const BLANK := Entry(false, NULL_REF, NULL_REF)
  const GRAVE := Entry(true, NULL_REF, NULL_REF)

  function SlotOf(a: Image, e: Entry): Slot {
    if !e.Empty() then Live(View(a, e.key), View(a, e.value))
    else if e.deleted then Tombstone
    else Free
  }

  function Slots(a: Image, es: seq<Entry>): (slots: seq<Slot>)
    ensures |slots| == |es|
  {
    seq(|es|, i requires 0 <= i < |es| => SlotOf(a, es[i]))
  }

  // ----- ownership of bytes

  /** A deleted entry is empty, and an empty entry holds no bytes. */
  predicate ValidEntry(a: Image, e: Entry) {
    && ValidRef(a, e.key) && ValidRef(a, e.value)
    && Disjoint(e.key, e.value)
    && (e.Empty() ==> e == BLANK || e == GRAVE)
    && (e.deleted ==> e.Empty())
  }

  predicate Apart(e: Entry, o: Entry) {
    && Disjoint(e.key, o.key) && Disjoint(e.key, o.value)
    && Disjoint(e.value, o.key) && Disjoint(e.value, o.value)
  }

  predicate EntriesValid(a: Image, es: seq<Entry>) {
    forall i :: 0 <= i < |es| ==> ValidEntry(a, es[i])
  }

  /** No byte belongs to two live strings. */
  predicate Owned(a: Image, es: seq<Entry>) {
    && EntriesValid(a, es)
    && (forall i, j :: 0 <= i < j < |es| ==> Apart(es[i], es[j]))
  }

  function Bytes(e: Entry): nat {
    e.key.size + e.value.size
  }

  function LiveBytes(es: seq<Entry>): nat {
    if es == [] then 0 else LiveBytes(es[..|es| - 1]) + Bytes(es[|es| - 1])
  }

  /** Every string that does not touch entry `e` of arena `a` is intact in `a'`, and does not touch `e'`. */
  ghost predicate Spares(a: Image, e: Entry, a': Image, e': Entry) {
    forall q :: ValidRef(a, q) && Disjoint(q, e.key) && Disjoint(q, e.value) ==>
      ValidRef(a', q) && View(a', q) == View(a, q) && Disjoint(q, e'.key) && Disjoint(q, e'.value)
  }

  // ----- the invariant

  predicate Load(size: nat, capacity: nat) {
    && size <= capacity
    && (capacity >= 4 ==> 4 * size <= 3 * capacity + 3)
  }

  /** The bytes handed out for strings, `used_size`. */
  function Used(a: Image): nat {
    Total(a.blocks).used
  }

  function Allocated(a: Image): nat {
    Total(a.blocks).capacity
  }

  /** `should_reallocate` is false. */
  predicate Roomy(a: Image) {
    2 * a.dead < Total(a.blocks).capacity
  }

  ghost predicate Core(hash: Hash, a: Image, es: seq<Entry>, size: nat, contents: map<string, string>, abandoned: nat) {
    && Valid(a) && a.blockSize == ARENA_BLOCK_SIZE
    && Owned(a, es)
    && Represents(hash, Slots(a, es), contents)
    && size == CountLive(Slots(a, es)) == |contents|
    && Load(size, |es|)
    && LiveBytes(es) + a.dead + abandoned == Total(a.blocks).used
  }

  ghost predicate Sound(hash: Hash, a: Image, es: seq<Entry>, size: nat, contents: map<string, string>, abandoned: nat) {
    Core(hash, a, es, size, contents, abandoned) && Roomy(a)
  }

  lemma CoreParts(hash: Hash, a: Image, es: seq<Entry>, size: nat, contents: map<string, string>, abandoned: nat)
    requires Core(hash, a, es, size, contents, abandoned)
    ensures Valid(a) && EntriesValid(a, es) && Owned(a, es)
    ensures Represents(hash, Slots(a, es), contents)
    ensures size == CountLive(Slots(a, es)) == |contents| && Load(size, |es|)
  {
  }

  lemma Parts(hash: Hash, a: Image, es: seq<Entry>, size: nat, contents: map<string, string>, abandoned: nat)
    requires Sound(hash, a, es, size, contents, abandoned)
    ensures Core(hash, a, es, size, contents, abandoned)
    ensures Valid(a) && EntriesValid(a, es) && Owned(a, es)
    ensures Represents(hash, Slots(a, es), contents)
    ensures size == CountLive(Slots(a, es)) == |contents| && Load(size, |es|)
  {
  }

  lemma CoreRoomy(hash: Hash, a: Image, es: seq<Entry>, size: nat, contents: map<string, string>, abandoned: nat)
    requires Core(hash, a, es, size, contents, abandoned)
    requires Total(a.blocks).capacity > 2 * a.dead
    ensures Sound(hash, a, es, size, contents, abandoned)
  {
  }

  lemma VacantEntry(a: Image, es: seq<Entry>, i: nat)
    requires EntriesValid(a, es) && i < |es| && !Slots(a, es)[i].Live?
    ensures es[i] == BLANK || es[i] == GRAVE
  {
  }

  lemma EntryParts(a: Image, es: seq<Entry>, i: nat)
    requires EntriesValid(a, es) && i < |es|
    ensures ValidEntry(a, es[i]) && Slots(a, es)[i] == SlotOf(a, es[i])
  {
  }

  lemma LiveEntry(a: Image, es: seq<Entry>, i: nat, key: string)
    requires EntriesValid(a, es) && Holds(Slots(a, es), i, key)
    ensures ValidEntry(a, es[i]) && !es[i].Empty()
    ensures Slots(a, es)[i] == Live(key, View(a, es[i].value))
  {
  }

  // ----- entries changed one at a time

  lemma {:induction false} LiveBytesUpdate(es: seq<Entry>, i: nat, e: Entry)
    requires i < |es|
    ensures LiveBytes(es[i := e]) + Bytes(es[i]) == LiveBytes(es) + Bytes(e)
  {
    var n := |es| - 1;
    if i == n {
      assert es[i := e][..n] == es[..n];
    } else {
      assert es[i := e][..n] == es[..n][i := e];
      LiveBytesUpdate(es[..n], i, e);
    }
  }

  lemma SparedEntry(a: Image, e: Entry, a': Image, e': Entry, o: Entry)
    requires Spares(a, e, a', e')
    requires ValidEntry(a, o) && Apart(o, e)
    ensures ValidEntry(a', o) && Apart(o, e') && SlotOf(a', o) == SlotOf(a, o)
  {
  }

  lemma ApartSymmetric(e: Entry, o: Entry)
    ensures Apart(e, o) <==> Apart(o, e)
  {
  }

  /** One entry replaced, the arena changed only under it: ownership and all other slots stay. */
  lemma OwnedUpdate(a: Image, es: seq<Entry>, a': Image, i: nat, e: Entry)
    requires Owned(a, es) && i < |es|
    requires ValidEntry(a', e) && Spares(a, es[i], a', e)
    ensures Owned(a', es[i := e])
    ensures Slots(a', es[i := e]) == Slots(a, es)[i := SlotOf(a', e)]
  {
    var es' := es[i := e];
    forall j | 0 <= j < |es| && j != i
      ensures ValidEntry(a', es[j]) && SlotOf(a', es[j]) == SlotOf(a, es[j])
      ensures Apart(es[j], e) && Apart(e, es[j])
    {
      ApartSymmetric(es[i], es[j]);
      assert Apart(es[j], es[i]);
      SparedEntry(a, es[i], a', e, es[j]);
      ApartSymmetric(e, es[j]);
    }
    forall j | 0 <= j < |es'| ensures ValidEntry(a', es'[j]) {
    }
    forall j, k | 0 <= j < k < |es'| ensures Apart(es'[j], es'[k]) {
      if j != i && k != i {
        assert Apart(es[j], es[k]);
      }
    }
  }

  lemma OwnedAppend(a: Image, es: seq<Entry>, a': Image, e: Entry)
    requires Owned(a, es)
    requires ValidEntry(a', e) && Spares(a, BLANK, a', e)
    ensures Owned(a', es + [e])
    ensures Slots(a', es + [e]) == Slots(a, es) + [SlotOf(a', e)]
  {
    forall j | 0 <= j < |es|
      ensures ValidEntry(a', es[j]) && SlotOf(a', es[j]) == SlotOf(a, es[j]) && Apart(es[j], e)
    {
      SparedEntry(a, BLANK, a', e, es[j]);
    }
  }

  // ----- entries written into the arena

  lemma ViewSize(a: Image, ref: StringRef)
    requires Valid(a) && ValidRef(a, ref)
    ensures |View(a, ref)| == ref.size
  {
    if ref.size > 0 {
      assert ValidBlock(a.blockSize, a.blocks[ref.block]);
    }
  }

  /** A key and its value, stored one after the other. */
  function StoredPair(a: Image, key: string, value: string): (r: (Image, Entry))
    requires Valid(a) && |key| < WORD32
  {
    StoredKeeps(a, key);
    var (a1, k) := Stored(a, key);
    var (a2, v) := Stored(a1, value);
    (a2, Entry(false, k, v))
  }

  lemma StoredPairKeeps(a: Image, key: string, value: string)
    requires Valid(a) && 0 < |key| < WORD32 && |value| < WORD32
    ensures var (a', e) := StoredPair(a, key, value);
            && Valid(a') && a'.blockSize == a.blockSize && a'.dead == a.dead
            && Total(a'.blocks).used == Total(a.blocks).used + Bytes(e)
            && Total(a'.blocks).capacity >= Total(a.blocks).capacity
            && ValidEntry(a', e) && SlotOf(a', e) == Live(key, value)
            && Spares(a, BLANK, a', e)
            && Bytes(e) == |key| + |value|
  {
    StoredKeeps(a, key);
    var (a1, k) := Stored(a, key);
    StoredKeeps(a1, value);
  }

  // ----- the steps of the map

  lemma StartSound(hash: Hash, capacity: nat)
    requires capacity > 0
    ensures Sound(hash, Empty(ARENA_BLOCK_SIZE), seq(capacity, _ => BLANK), 0, map[], 0)
  {
    var a := Empty(ARENA_BLOCK_SIZE);
    var es := seq(capacity, _ => BLANK);
    EmptyValid(ARENA_BLOCK_SIZE);
    BlankTable(a, capacity);
    AllFree(hash, Slots(a, es));
  }

  lemma {:induction false} BlankTable(a: Image, capacity: nat)
    requires Valid(a)
    ensures var es := seq(capacity, _ => BLANK);
            Owned(a, es) && LiveBytes(es) == 0
  {
    if capacity > 0 {
      BlankTable(a, capacity - 1);
      assert seq(capacity, _ => BLANK)[..capacity - 1] == seq(capacity - 1, _ => BLANK);
    }
  }

  lemma InsertSound(hash: Hash, a: Image, es: seq<Entry>, size: nat, contents: map<string, string>, abandoned: nat,
                    i: nat, key: string, value: string)
    requires Sound(hash, a, es, size, contents, abandoned)
    requires 0 < |key| < WORD32 && |value| < WORD32
    requires key !in contents
    requires FirstVacant(Slots(a, es), Home(hash, key, |es|), Some(i))
    requires 4 * size < 3 * |es|
    ensures var (a', e) := StoredPair(a, key, value);
            && Sound(hash, a', es[i := e], size + 1, contents[key := value], abandoned)
            && Holds(Slots(a', es[i := e]), i, key)
            && Used(a') == Used(a) + |key| + |value| && a'.dead == a.dead
  {
    var slots := Slots(a, es);
    VacantReachable(slots, Home(hash, key, |es|), i);
    assert es[i] == BLANK || es[i] == GRAVE;
    StoredPairKeeps(a, key, value);
    var (a', e) := StoredPair(a, key, value);
    OwnedUpdate(a, es, a', i, e);
    Insert(hash, slots, contents, i, key, value);
    CountUpdate(slots, i, Live(key, value));
    CountBounds(slots[i := Live(key, value)]);
    LiveBytesUpdate(es, i, e);
    SizeMoves(contents, key, value);
  }

  /** A stored key whose value has been moved to fresh, larger bytes; the old ones are abandoned. */
  lemma ReplaceSound(hash: Hash, a: Image, es: seq<Entry>, size: nat, contents: map<string, string>, abandoned: nat,
                     i: nat, key: string, value: string)
    requires Sound(hash, a, es, size, contents, abandoned)
    requires Holds(Slots(a, es), i, key)
    requires |value| < WORD32
    ensures var (a', v) := Stored(a, value);
            && Sound(hash, a', es[i := es[i].(value := v)], size, contents[key := value], abandoned + es[i].value.size)
            && Used(a') == Used(a) + |value| && a'.dead == a.dead
  {
    StoredKeeps(a, value);
    var (a', v) := Stored(a, value);
    ValueSound(hash, a, es, size, contents, abandoned, i, key, value, a', v, |value|);
  }

  /** A stored key whose value has been rewritten where it stood; the tail is abandoned. */
  lemma OverwriteSound(hash: Hash, a: Image, es: seq<Entry>, size: nat, contents: map<string, string>, abandoned: nat,
                       i: nat, key: string, value: string, rule: TailRule)
    requires Sound(hash, a, es, size, contents, abandoned)
    requires Holds(Slots(a, es), i, key)
    requires |value| <= es[i].value.size && es[i].value.offset + es[i].value.size < WORD32
    requires Overwritten(rule, a, es[i].value, value).Some?
    ensures var (a', v) := Overwritten(rule, a, es[i].value, value).value;
            && Sound(hash, a', es[i := es[i].(value := v)], size, contents[key := value],
                     abandoned + es[i].value.size - |value|)
            && Used(a') == Used(a) && a'.dead == a.dead
  {
    assert ValidEntry(a, es[i]);
    OverwrittenKeeps(rule, a, es[i].value, value);
    var (a', v) := Overwritten(rule, a, es[i].value, value).value;
    ValueSound(hash, a, es, size, contents, abandoned, i, key, value, a', v, 0);
  }

  /** What both have in common. */
  lemma ValueSound(hash: Hash, a: Image, es: seq<Entry>, size: nat, contents: map<string, string>, abandoned: nat,
                   i: nat, key: string, value: string, a': Image, v: StringRef, grown: nat)
    requires Sound(hash, a, es, size, contents, abandoned)
    requires Holds(Slots(a, es), i, key)
    requires Valid(a') && a'.blockSize == a.blockSize && a'.dead == a.dead
    requires Total(a'.blocks).used == Total(a.blocks).used + grown
    requires Total(a'.blocks).capacity >= Total(a.blocks).capacity
    requires ValidRef(a', v) && v.size == |value| && View(a', v) == value
    requires forall q :: ValidRef(a, q) && Disjoint(q, es[i].value) ==>
               ValidRef(a', q) && View(a', q) == View(a, q) && Disjoint(q, v)
    requires |value| <= es[i].value.size + grown
    ensures Sound(hash, a', es[i := es[i].(value := v)], size, contents[key := value],
                  abandoned + es[i].value.size + grown - |value|)
  {
    var slots := Slots(a, es);
    var e := es[i].(value := v);
    assert ValidEntry(a, es[i]);
    OwnedUpdate(a, es, a', i, e);
    FoundUnique(hash, slots, contents, key, i);
    Update(hash, slots, contents, i, key, value);
    CountUpdate(slots, i, Live(key, value));
    LiveBytesUpdate(es, i, e);
    SizeMoves(contents, key, value);
  }

  lemma RemovedPairKeeps(a: Image, e: Entry)
    requires Valid(a) && ValidEntry(a, e) && !e.Empty()
    ensures var a1 := Removed(a, e.key).0;
            && Valid(a1) && ValidRef(a1, e.value)
            && var a' := Removed(a1, e.value).0;
               && Valid(a') && a'.blockSize == a.blockSize
               && a'.dead == a.dead + Bytes(e)
               && Total(a'.blocks).used == Total(a.blocks).used
               && Total(a'.blocks).capacity == Total(a.blocks).capacity
               && Spares(a, e, a', GRAVE)
  {
    RemovedKeeps(a, e.key);
    var a1 := Removed(a, e.key).0;
    RemovedKeeps(a1, e.value);
  }

  lemma ViewSizes(a: Image, es: seq<Entry>, i: nat)
    requires Valid(a) && EntriesValid(a, es) && i < |es|
    ensures |View(a, es[i].key)| == es[i].key.size && |View(a, es[i].value)| == es[i].value.size
  {
    assert ValidEntry(a, es[i]);
    ViewSize(a, es[i].key);
    ViewSize(a, es[i].value);
  }

  lemma DeleteCore(hash: Hash, a: Image, es: seq<Entry>, size: nat, contents: map<string, string>, abandoned: nat,
                   i: nat, key: string)
    requires Sound(hash, a, es, size, contents, abandoned)
    requires Holds(Slots(a, es), i, key)
    ensures size > 0 && Valid(Removed(a, es[i].key).0)
    ensures var a' := Removed(Removed(a, es[i].key).0, es[i].value).0;
            && Core(hash, a', es[i := GRAVE], size - 1, contents - {key}, abandoned)
            && key in contents
            && a'.dead == a.dead + |key| + |contents[key]|
            && Used(a') == Used(a) && Allocated(a') == Allocated(a)
  {
    ViewSizes(a, es, i);
    var slots := Slots(a, es);
    assert ValidEntry(a, es[i]) && !es[i].Empty();
    RemovedPairKeeps(a, es[i]);
    var a' := Removed(Removed(a, es[i].key).0, es[i].value).0;
    OwnedUpdate(a, es, a', i, GRAVE);
    Delete(hash, slots, contents, i, key);
    CountUpdate(slots, i, Tombstone);
    FoundUnique(hash, slots, contents, key, i);
    LiveBytesUpdate(es, i, GRAVE);
    SizeMoves(contents, key, "");
  }
}
