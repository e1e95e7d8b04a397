/**
 * `get`, `resize` and `set` of the hash map as functions on a table and its arena (server/src/map.cpp:76-118).
 * They are defined on every readable table, also on those that no plain map describes; on a sound table
 * they do what the plain map does.
 */
module TableSteps {
  import opened Wrappers
  import opened ArenaImage
  import opened ProbeTable
  import opened MapImage
  import opened Rebuild

  datatype Table = Table(image: Image, entries: seq<Entry>, size: nat) {
    function View(): seq<Slot> { Slots(image, entries) }
  }

  /** What a call of `set` comes to: besides the normal end, the null entry that the
      program dereferences, and the clear that runs past its block. */
  datatype SetOutcome = Done | NullEntry | Overrun

  predicate ReadableEntry(a: Image, e: Entry) {
    ValidRef(a, e.key) && ValidRef(a, e.value) && (e.deleted ==> e.Empty())
  }

  predicate Readable(a: Image, es: seq<Entry>) {
    forall i :: 0 <= i < |es| ==> ReadableEntry(a, es[i])
  }

  predicate Legible(t: Table) {
    Valid(t.image) && |t.entries| > 0 && Readable(t.image, t.entries)
  }

  // ----- the operations

  function GetOn(hash: Hash, t: Table, key: string): Option<string>
    requires |t.entries| > 0
  {
    match Search(Match, hash, t.View(), key)
    case Some(i) => Some(View(t.image, t.entries[i].value))
    case None => None
  }

  /** The entries of `es` from `i` on are put into `table`, one after the other. */
  function Refill(hash: Hash, a: Image, es: seq<Entry>, i: nat, table: seq<Entry>): (r: seq<Entry>)
    requires i <= |es| && |table| > 0
    ensures |r| == |table|
    decreases |es| - i
  {
    if i == |es| then table
    else if es[i].Empty() then Refill(hash, a, es, i + 1, table)
    else
      match Search(MatchFree, hash, Slots(a, table), View(a, es[i].key))
      case Some(j) => Refill(hash, a, es, i + 1, table[j := table[j].(key := es[i].key, value := es[i].value)])
      case None => table
  }

  function Blank(n: nat): seq<Entry> {
    seq(n, _ => BLANK)
  }

  /** The table at twice its capacity. */
  function Grown(hash: Hash, t: Table): (t': Table)
    requires |t.entries| > 0
    ensures |t'.entries| == 2 * |t.entries| && t'.image == t.image && t'.size == t.size
  {
    t.(entries := Refill(hash, t.image, t.entries, 0, Blank(2 * |t.entries|)))
  }

  /** The key goes into a vacant entry. */
  function PutKey(t: Table, i: nat, key: string): (t': Table)
    requires Valid(t.image) && i < |t.entries|
    ensures |t'.entries| == |t.entries| && t'.entries[i].value == t.entries[i].value
  {
    var (a, k) := Stored(t.image, key);
    Table(a, t.entries[i := t.entries[i].(deleted := false, key := k)], t.size + 1)
  }

  /** The value is written over the one that the entry refers to when it fits there, otherwise stored anew. */
  function PutValue(rule: TailRule, t: Table, i: nat, value: string): (r: (SetOutcome, Table))
    requires Valid(t.image) && i < |t.entries| && ValidRef(t.image, t.entries[i].value)
    ensures |r.1.entries| == |t.entries| && r.0 != NullEntry
  {
    var e := t.entries[i];
    if |value| <= e.value.size then
      match Overwritten(rule, t.image, e.value, value)
      case Some((a, v)) => (Done, t.(image := a, entries := t.entries[i := e.(value := v)]))
      case None => (Overrun, t)
    else
      var (a, v) := Stored(t.image, value);
      (Done, t.(image := a, entries := t.entries[i := e.(value := v)]))
  }

  /** The search for a place, or for the key itself, ends at a vacant entry. */
  predicate Vacant(hash: Hash, t: Table, key: string)
    requires |t.entries| > 0
  {
    var found := Search(MatchOrFree, hash, t.View(), key);
    found.Some? && t.entries[found.value].Empty()
  }

  /** The table that `set` works on: a larger one if the key needs a vacant entry and the load is too high. */
  function Prepared(hash: Hash, t: Table, key: string): (t': Table)
    requires |t.entries| > 0
    ensures t'.image == t.image && t'.size == t.size && |t'.entries| >= |t.entries|
  {
    if Vacant(hash, t, key) && 4 * t.size >= 3 * |t.entries| then Grown(hash, t) else t
  }

  /** The entry that `set` gives the value to; a new key is already in it.  `None` is the null entry. */
  function KeyPlaced(hash: Hash, t: Table, key: string): (r: (Option<nat>, Table))
    requires Legible(t) && |key| < WORD32
    ensures Legible(r.1)
    ensures r.0.Some? ==> r.0.value < |r.1.entries| && ValidRef(r.1.image, r.1.entries[r.0.value].value)
  {
    PreparedLegible(hash, t, key);
    var t1 := Prepared(hash, t, key);
    match Search(MatchOrFree, hash, t1.View(), key)
    case None => (None, t1)
    case Some(i) =>
      PutKeyLegible(t1, i, key);
      (Some(i), if Vacant(hash, t, key) then PutKey(t1, i, key) else t1)
  }

  function SetOn(hash: Hash, rule: TailRule, t: Table, key: string, value: string): (SetOutcome, Table)
    requires Legible(t) && |key| < WORD32
  {
    match KeyPlaced(hash, t, key)
    case (None, t1) => (NullEntry, t1)
    case (Some(i), t1) => PutValue(rule, t1, i, value)
  }

  lemma NotPlaced(hash: Hash, t: Table, key: string)
    requires Legible(t) && |key| < WORD32
    ensures Search(MatchOrFree, hash, t.View(), key).None? ==> KeyPlaced(hash, t, key) == (None, t)
    ensures KeyPlaced(hash, t, key).0.None? ==>
              forall rule, value :: SetOn(hash, rule, t, key, value) == (NullEntry, KeyPlaced(hash, t, key).1)
  {
  }

  lemma PlacedVacant(hash: Hash, rule: TailRule, t: Table, key: string, value: string)
    requires Legible(t) && |key| < WORD32 && Vacant(hash, t, key)
    ensures Legible(Prepared(hash, t, key))
    ensures var (t1, n) := (Prepared(hash, t, key), |t.entries|);
            && t1 == (if 4 * t.size >= 3 * n then Grown(hash, t) else t)
            && match Search(MatchOrFree, hash, t1.View(), key)
               case None => true
               case Some(i) =>
                 && Legible(PutKey(t1, i, key))
                 && ValidRef(PutKey(t1, i, key).image, PutKey(t1, i, key).entries[i].value)
                 && SetOn(hash, rule, t, key, value) == PutValue(rule, PutKey(t1, i, key), i, value)
  {
    hide Legible, PutKey, PutValue, Search, Grown;
    PreparedLegible(hash, t, key);
    var t1 := Prepared(hash, t, key);
    var found := Search(MatchOrFree, hash, t1.View(), key);
    if found.Some? {
      PutKeyLegible(t1, found.value, key);
    }
  }

  // ----- they keep a table readable

  lemma {:induction false} RefillReadable(hash: Hash, a: Image, es: seq<Entry>, i: nat, table: seq<Entry>)
    requires i <= |es| && |table| > 0 && Readable(a, es) && Readable(a, table)
    ensures Readable(a, Refill(hash, a, es, i, table))
    decreases |es| - i
  {
    if i < |es| {
      if es[i].Empty() {
        RefillReadable(hash, a, es, i + 1, table);
      } else {
        var found := Search(MatchFree, hash, Slots(a, table), View(a, es[i].key));
        if found.Some? {
          SearchFree(hash, Slots(a, table), View(a, es[i].key));
          var j := found.value;
          assert ReadableEntry(a, es[i]) && ReadableEntry(a, table[j]) && SlotOf(a, table[j]) == Free;
          RefillReadable(hash, a, es, i + 1, table[j := table[j].(key := es[i].key, value := es[i].value)]);
        }
      }
    }
  }

  lemma PreparedLegible(hash: Hash, t: Table, key: string)
    requires Legible(t)
    ensures Legible(Prepared(hash, t, key))
  {
    RefillReadable(hash, t.image, t.entries, 0, Blank(2 * |t.entries|));
  }

  lemma PutKeyLegible(t: Table, i: nat, key: string)
    requires Legible(t) && i < |t.entries| && |key| < WORD32
    ensures Legible(PutKey(t, i, key)) && ValidRef(PutKey(t, i, key).image, t.entries[i].value)
    ensures ValidRef(t.image, t.entries[i].value)
  {
    StoredKeeps(t.image, key);
    assert ReadableEntry(t.image, t.entries[i]);
  }

  lemma PutValueLegible(rule: TailRule, t: Table, i: nat, value: string)
    requires Legible(t) && i < |t.entries| && |value| < WORD32
    ensures ValidRef(t.image, t.entries[i].value) && Legible(PutValue(rule, t, i, value).1)
  {
    var ref := t.entries[i].value;
    assert ReadableEntry(t.image, t.entries[i]);
    if |value| > ref.size {
      StoredKeeps(t.image, value);
    } else if Overwritten(rule, t.image, ref, value).Some? {
      OverwrittenKeeps(rule, t.image, ref, value);
    }
  }

  lemma SetLegible(hash: Hash, rule: TailRule, t: Table, key: string, value: string)
    requires Legible(t) && |key| < WORD32 && |value| < WORD32
    ensures Legible(SetOn(hash, rule, t, key, value).1)
  {
    var (found, t1) := KeyPlaced(hash, t, key);
    if found.Some? {
      PutValueLegible(rule, t1, found.value, value);
    }
  }

  // ----- room for every entry

  /** So many slots at most are taken, and none is a tombstone. */
  predicate Fillable(slots: seq<Slot>, i: nat) {
    CountLive(slots) <= i && forall j :: 0 <= j < |slots| ==> slots[j] != Tombstone
  }

  lemma ReadableBlank(a: Image, n: nat)
    ensures Readable(a, Blank(n))
  {
  }

  lemma FillableStart(a: Image, n: nat)
    ensures Fillable(Slots(a, Blank(n)), 0)
  {
    CountBounds(Slots(a, Blank(n)));
  }

  /** While fewer entries are placed than there are slots, a free slot is found; what stood there was blank. */
  lemma FillableStep(hash: Hash, a: Image, table: seq<Entry>, i: nat, e: Entry)
    requires 0 < |table| && i < |table| && Fillable(Slots(a, table), i) && !e.Empty()
    ensures var found := Search(MatchFree, hash, Slots(a, table), View(a, e.key));
            && found.Some?
            && Slots(a, table)[found.value] == Free
            && var e' := table[found.value].(key := e.key, value := e.value);
               Fillable(Slots(a, table[found.value := e']), i + 1)
  {
    var slots := Slots(a, table);
    var found := Search(MatchFree, hash, slots, View(a, e.key));
    SearchFree(hash, slots, View(a, e.key));
    CountBounds(slots);
    var e' := table[found.value].(key := e.key, value := e.value);
    assert Slots(a, table[found.value := e']) == slots[found.value := SlotOf(a, e')];
    CountUpdate(slots, found.value, SlotOf(a, e'));
  }

  // ----- on a sound table they do what the plain map does

  lemma {:induction false} RefillRehashes(hash: Hash, a: Image, es: seq<Entry>, contents: map<string, string>,
                                          i: nat, table: seq<Entry>, done: map<string, string>)
    returns (all: map<string, string>)
    requires Owned(a, es) && Represents(hash, Slots(a, es), contents) && i <= |es| < |table|
    requires Rehashed(hash, a, es, contents, i, table, done)
    ensures Rehashed(hash, a, es, contents, |es|, Refill(hash, a, es, i, table), all)
    decreases |es| - i
  {
    hide Owned, Represents, Rehashed, Slots, Search;
    if i == |es| {
      all := done;
    } else {
      OwnedAt(a, es, i);
      if es[i].Empty() {
        RehashSkip(hash, a, es, contents, i, table, done);
        all := RefillRehashes(hash, a, es, contents, i + 1, table, done);
      } else {
        var key := View(a, es[i].key);
        var found := Search(MatchFree, hash, Slots(a, table), key);
        SearchFree(hash, Slots(a, table), key);
        RehashRoom(hash, a, es, contents, i, table, done, Home(hash, key, |table|), found);
        RehashStep(hash, a, es, contents, i, table, done, found.value);
        RehashBlank(hash, a, es, contents, i, table, done, found.value);
        all := RefillRehashes(hash, a, es, contents, i + 1, table[found.value := es[i]], done[key := View(a, es[i].value)]);
      }
    }
  }

  lemma OwnedAt(a: Image, es: seq<Entry>, i: nat)
    requires Owned(a, es) && i < |es|
    ensures ValidEntry(a, es[i])
  {
  }

  lemma RehashBlank(hash: Hash, a: Image, es: seq<Entry>, contents: map<string, string>,
                    i: nat, table: seq<Entry>, done: map<string, string>, j: nat)
    requires Rehashed(hash, a, es, contents, i, table, done) && i < |es| && Owned(a, es) && !es[i].Empty()
    requires j < |table| && Slots(a, table)[j] == Free
    ensures table[j].(key := es[i].key, value := es[i].value) == es[i]
  {
    assert ValidEntry(a, table[j]) && ValidEntry(a, es[i]);
  }

  /** The refilled table is the same map, without tombstones. */
  lemma RefillSound(hash: Hash, a: Image, es: seq<Entry>, size: nat, contents: map<string, string>, abandoned: nat)
    requires Sound(hash, a, es, size, contents, abandoned)
    ensures var table := Refill(hash, a, es, 0, Blank(2 * |es|));
            && Sound(hash, a, table, size, contents, abandoned)
            && forall j :: 0 <= j < |table| ==> Slots(a, table)[j] != Tombstone
  {
    hide Refill, Represents, Rehashed, Slots, Owned;
    Parts(hash, a, es, size, contents, abandoned);
    RehashStart(hash, a, es, contents, 2 * |es|);
    var all := RefillRehashes(hash, a, es, contents, 0, Blank(2 * |es|), map[]);
    RehashDone(hash, a, es, size, contents, abandoned, Refill(hash, a, es, 0, Blank(2 * |es|)), all);
  }

  lemma SoundLegible(hash: Hash, t: Table, contents: map<string, string>, abandoned: nat)
    requires Sound(hash, t.image, t.entries, t.size, contents, abandoned)
    ensures Legible(t)
  {
    Parts(hash, t.image, t.entries, t.size, contents, abandoned);
    hide Sound, Valid, Owned, Represents;
    forall i | 0 <= i < |t.entries| ensures ReadableEntry(t.image, t.entries[i]) {
      EntryParts(t.image, t.entries, i);
    }
    NotEmpty(hash, t.View(), contents);
  }

  lemma NotEmpty(hash: Hash, slots: seq<Slot>, contents: map<string, string>)
    requires Represents(hash, slots, contents)
    ensures |slots| > 0
  {
  }

  /** How many bytes a new value leaves behind. */
  function Dropped(contents: map<string, string>, key: string, value: string): nat {
    if key !in contents then 0
    else |contents[key]| - (if |value| <= |contents[key]| then |value| else 0)
  }

  /** The entry of a stored key gets a new value. */
  lemma PutStored(hash: Hash, rule: TailRule, t: Table, contents: map<string, string>, abandoned: nat,
                  i: nat, key: string, value: string)
    requires Sound(hash, t.image, t.entries, t.size, contents, abandoned) && Legible(t)
    requires Holds(t.View(), i, key) && |value| < WORD32
    ensures key in contents && !t.entries[i].Empty() && ValidRef(t.image, t.entries[i].value)
    ensures var (o, t') := PutValue(rule, t, i, value);
            && |t'.entries| == |t.entries|
            && o == (if rule.AsWritten? && |value| < |contents[key]| then Overrun else Done)
            && (o == Done ==>
                  && Sound(hash, t'.image, t'.entries, t'.size, contents[key := value], abandoned + Dropped(contents, key, value))
                  && Used(t'.image) == Used(t.image) + (if |value| > |contents[key]| then |value| else 0)
                  && t'.image.dead == t.image.dead)
  {
    hide Sound, Represents, Owned, Readable, EntriesValid, Holds, Valid, Overwritten, Stored, MapImage.Slots, ArenaImage.View;
    var (a, es) := (t.image, t.entries);
    Parts(hash, a, es, t.size, contents, abandoned);
    StoredValue(hash, t, contents, i, key);
    if |value| <= es[i].value.size {
      OverwriteSafety(rule, a, es[i].value, value);
      if Overwritten(rule, a, es[i].value, value).Some? {
        OverwriteSound(hash, a, es, t.size, contents, abandoned, i, key, value, rule);
      }
    } else {
      ReplaceSound(hash, a, es, t.size, contents, abandoned, i, key, value);
    }
  }

  lemma StoredValue(hash: Hash, t: Table, contents: map<string, string>, i: nat, key: string)
    requires Valid(t.image) && EntriesValid(t.image, t.entries) && Represents(hash, t.View(), contents)
    requires Holds(t.View(), i, key)
    ensures key in contents && i < |t.entries| && ValidEntry(t.image, t.entries[i]) && !t.entries[i].Empty()
    ensures |contents[key]| == t.entries[i].value.size
  {
    hide Represents, EntriesValid, Valid;
    LiveEntry(t.image, t.entries, i, key);
    FoundUnique(hash, t.View(), contents, key, i);
    ViewSize(t.image, t.entries[i].value);
  }

  /** A stored key is found, and its value is replaced. */
  lemma SetStored(hash: Hash, rule: TailRule, t: Table, contents: map<string, string>, abandoned: nat,
                  key: string, value: string)
    requires Sound(hash, t.image, t.entries, t.size, contents, abandoned) && Legible(t)
    requires key in contents && |key| < WORD32 && |value| < WORD32
    ensures var (o, t') := SetOn(hash, rule, t, key, value);
            && |t'.entries| == |t.entries|
            && o == (if rule.AsWritten? && |value| < |contents[key]| then Overrun else Done)
            && (o == Done ==>
                  && Sound(hash, t'.image, t'.entries, t'.size, contents[key := value], abandoned + Dropped(contents, key, value))
                  && Used(t'.image) == Used(t.image) + (if |value| > |contents[key]| then |value| else 0)
                  && t'.image.dead == t.image.dead)
  {
    hide Sound, Represents, Search, Owned, Readable, EntriesValid, PutValue, PutKey, MapImage.Slots;
    Parts(hash, t.image, t.entries, t.size, contents, abandoned);
    SearchAnswers(MatchOrFree, hash, t.View(), contents, key);
    var i := Search(MatchOrFree, hash, t.View(), key).value;
    PutStored(hash, rule, t, contents, abandoned, i, key, value);
  }

  /** A new key and its value, put into a vacant entry that never held one. */
  lemma PutPair(rule: TailRule, t: Table, i: nat, key: string, value: string)
    requires Legible(t) && i < |t.entries| && 0 < |key| < WORD32 && |value| < WORD32
    requires t.entries[i] == BLANK || t.entries[i] == GRAVE
    ensures Legible(PutKey(t, i, key)) && ValidRef(PutKey(t, i, key).image, PutKey(t, i, key).entries[i].value)
    ensures var (a, e) := StoredPair(t.image, key, value);
            PutValue(rule, PutKey(t, i, key), i, value) == (Done, Table(a, t.entries[i := e], t.size + 1))
  {
    hide Valid, Readable, WithRoom;
    PutKeyLegible(t, i, key);
    StoredKeeps(t.image, key);
    StoredKeeps(Stored(t.image, key).0, value);
    var (a, e) := StoredPair(t.image, key, value);
    assert PutKey(t, i, key).entries[i := e] == t.entries[i := e];
  }

  lemma SetNew(hash: Hash, rule: TailRule, t: Table, contents: map<string, string>, abandoned: nat,
               key: string, value: string)
    requires Sound(hash, t.image, t.entries, t.size, contents, abandoned) && Legible(t)
    requires key !in contents && 0 < |key| < WORD32 && |value| < WORD32
    ensures var ((o, t'), n) := (SetOn(hash, rule, t, key, value), |t.entries|);
            && o == (if t.size == n then NullEntry else Done)
            && (o == NullEntry ==> t' == t && Search(MatchOrFree, hash, t.View(), key).None?)
            && (o == Done ==>
                  && |t'.entries| == (if 4 * t.size >= 3 * n then 2 * n else n)
                  && Sound(hash, t'.image, t'.entries, t'.size, contents[key := value], abandoned)
                  && Used(t'.image) == Used(t.image) + |key| + |value|
                  && t'.image.dead == t.image.dead)
  {
    hide Sound, Represents, Search, Owned, Readable, EntriesValid, Refill;
    var (a, es) := (t.image, t.entries);
    Parts(hash, a, es, t.size, contents, abandoned);
    SearchAnswers(MatchOrFree, hash, t.View(), contents, key);
    var found := Search(MatchOrFree, hash, t.View(), key);
    VacancyExists(t.View(), Home(hash, key, |es|), found);
    if found.Some? {
      VacantEntry(a, es, found.value);
      PreparedLegible(hash, t, key);
      var t1 := Prepared(hash, t, key);
      if 4 * t.size >= 3 * |es| {
        RefillSound(hash, a, es, t.size, contents, abandoned);
      }
      SetPrepared(hash, rule, t1, contents, abandoned, key, value);
    }
  }

  lemma SetPrepared(hash: Hash, rule: TailRule, t: Table, contents: map<string, string>, abandoned: nat,
                    key: string, value: string)
    requires Sound(hash, t.image, t.entries, t.size, contents, abandoned) && Legible(t) && 4 * t.size < 3 * |t.entries|
    requires key !in contents && 0 < |key| < WORD32 && |value| < WORD32
    ensures var found := Search(MatchOrFree, hash, t.View(), key);
            && found.Some? && t.entries[found.value].Empty()
            && Legible(PutKey(t, found.value, key))
            && ValidRef(PutKey(t, found.value, key).image, PutKey(t, found.value, key).entries[found.value].value)
            && var (o, t') := PutValue(rule, PutKey(t, found.value, key), found.value, value);
               && o == Done && |t'.entries| == |t.entries|
               && Sound(hash, t'.image, t'.entries, t'.size, contents[key := value], abandoned)
               && Used(t'.image) == Used(t.image) + |key| + |value|
               && t'.image.dead == t.image.dead
  {
    hide Sound, Represents, Search, Owned, Readable, EntriesValid, PutKey, PutValue;
    var (a, es) := (t.image, t.entries);
    Parts(hash, a, es, t.size, contents, abandoned);
    SearchAnswers(MatchOrFree, hash, t.View(), contents, key);
    var found := Search(MatchOrFree, hash, t.View(), key);
    VacancyExists(t.View(), Home(hash, key, |es|), found);
    VacantEntry(a, es, found.value);
    PutPair(rule, t, found.value, key, value);
    InsertSound(hash, a, es, t.size, contents, abandoned, found.value, key, value);
  }

  /** On a sound table `set` of a key updates the plain map, and it is known from the plain map when it
      meets a null entry or an overrun, when the table grows and how many bytes are taken. */
  lemma SetSound(hash: Hash, rule: TailRule, t: Table, contents: map<string, string>, abandoned: nat,
                 key: string, value: string)
    requires Sound(hash, t.image, t.entries, t.size, contents, abandoned)
    requires 0 < |key| < WORD32 && |value| < WORD32
    ensures Legible(t)
    ensures var ((o, t'), n) := (SetOn(hash, rule, t, key, value), |t.entries|);
            && (o == NullEntry <==> key !in contents && |contents| == n)
            && (o == Overrun <==> rule.AsWritten? && key in contents && |value| < |contents[key]|)
            && (o == NullEntry ==> t' == t && Search(MatchOrFree, hash, t.View(), key).None?)
            && (o != NullEntry ==>
                  |t'.entries| == if key !in contents && 4 * |contents| >= 3 * n then 2 * n else n)
            && (o == Done ==>
                  && Sound(hash, t'.image, t'.entries, t'.size, contents[key := value], abandoned + Dropped(contents, key, value))
                  && Used(t'.image) == Used(t.image) +
                       (if key !in contents then |key| + |value| else if |value| > |contents[key]| then |value| else 0)
                  && t'.image.dead == t.image.dead)
  {
    hide SetOn, Sound, Legible;
    Parts(hash, t.image, t.entries, t.size, contents, abandoned);
    SoundLegible(hash, t, contents, abandoned);
    if key in contents {
      SetStored(hash, rule, t, contents, abandoned, key, value);
    } else {
      SetNew(hash, rule, t, contents, abandoned, key, value);
    }
  }

  lemma GetSound(hash: Hash, t: Table, contents: map<string, string>, abandoned: nat, key: string)
    requires Sound(hash, t.image, t.entries, t.size, contents, abandoned)
    ensures Legible(t)
    ensures GetOn(hash, t, key) == if key in contents then Some(contents[key]) else None
  {
    hide Sound, Legible, Represents, Search;
    Parts(hash, t.image, t.entries, t.size, contents, abandoned);
    SoundLegible(hash, t, contents, abandoned);
    NotEmpty(hash, t.View(), contents);
    SearchAnswers(Match, hash, t.View(), contents, key);
    if key in contents {
      var i := Search(Match, hash, t.View(), key).value;
      FoundUnique(hash, t.View(), contents, key, i);
      LiveEntry(t.image, t.entries, i, key);
    }
  }

  lemma PreparedSound(hash: Hash, t: Table, key: string, contents: map<string, string>, abandoned: nat)
    requires Sound(hash, t.image, t.entries, t.size, contents, abandoned) && Legible(t)
    ensures var t1 := Prepared(hash, t, key);
            Sound(hash, t1.image, t1.entries, t1.size, contents, abandoned) && Legible(t1)
  {
    hide Sound, Legible, Search, Refill;
    PreparedLegible(hash, t, key);
    RefillSound(hash, t.image, t.entries, t.size, contents, abandoned);
  }

  lemma Usable(t: Table)
    requires Legible(t)
    ensures Valid(t.image) && |t.entries| > 0
  {
  }
}
