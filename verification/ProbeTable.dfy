/**
 * The open-addressing table as a value: each slot is free, a tombstone, or holds
 * a key and its value.  `Represents` is the probe-chain invariant.
 */
module ProbeTable {
  import opened Wrappers

  datatype Slot = Free | Tombstone | Live(key: string, value: string)

  type Hash = string -> nat

  // ----- cyclic positions

  /** The first slot probed for a key. */
  function Home(hash: Hash, key: string, n: nat): (h: nat)
    requires n > 0
    ensures h < n
  {
    hash(key) % n
  }

  /** The slot `d` steps after `home`, wrapping around. */
  function At(home: nat, d: nat, n: nat): (i: nat)
    requires home < n && d < n
    ensures i < n
  {
    if home + d < n then home + d else home + d - n
  }

  /** How many steps lead from `home` to slot `i`. */
  function Dist(home: nat, i: nat, n: nat): (d: nat)
    requires home < n && i < n
    ensures d < n && At(home, d, n) == i
  {
    if i >= home then i - home else i + n - home
  }

  /** The program's own step, `(slot + 1) % capacity`. */
  lemma NextSlot(home: nat, d: nat, n: nat)
    requires home < n && d < n
    ensures (At(home, d, n) + 1) % n == if d + 1 < n then At(home, d + 1, n) else home
  {
    var i := At(home, d, n) + 1;
    if i < n {
      SmallMod(i, n);
    }
  }

  lemma SmallMod(i: nat, n: nat)
    requires i < n
    ensures i % n == i
  {
  }

  // ----- what a table means

  predicate Holds(slots: seq<Slot>, i: nat, key: string) {
    i < |slots| && slots[i].Live? && slots[i].key == key
  }

  /** No free slot between `home` and slot `i`. */
  predicate Reachable(slots: seq<Slot>, home: nat, i: nat)
    requires home < |slots| && i < |slots|
  {
    forall d: nat :: d < Dist(home, i, |slots|) ==> slots[At(home, d, |slots|)] != Free
  }

  predicate Distinct(slots: seq<Slot>) {
    forall i, j :: 0 <= i < j < |slots| && slots[i].Live? && slots[j].Live? ==> slots[i].key != slots[j].key
  }

  /** `slots` stores exactly the plain map `contents`, every key once and reachable from its home. */
  ghost predicate Represents(hash: Hash, slots: seq<Slot>, contents: map<string, string>) {
    && |slots| > 0
    && (forall i :: 0 <= i < |slots| && slots[i].Live? ==>
          && slots[i].key in contents
          && contents[slots[i].key] == slots[i].value
          && Reachable(slots, Home(hash, slots[i].key, |slots|), i))
    && (forall k :: k in contents ==> exists i: nat :: Holds(slots, i, k))
    && Distinct(slots)
  }

  function CountLive(slots: seq<Slot>): nat {
    if slots == [] then 0
    else CountLive(slots[..|slots| - 1]) + if slots[|slots| - 1].Live? then 1 else 0
  }

  // ----- what the three lookups of `get_entry` must answer

  /** The slot of `key` when it is stored, `None` otherwise (SlotMatch::match). */
  predicate Matched(slots: seq<Slot>, contents: map<string, string>, key: string, r: Option<nat>) {
    if key in contents then r.Some? && Holds(slots, r.value, key) else r.None?
  }

  /** The first slot on the way from `home` that is not live; `None` only when all are live. */
  predicate FirstVacant(slots: seq<Slot>, home: nat, r: Option<nat>)
    requires home < |slots|
  {
    match r
    case Some(i) =>
      && i < |slots| && !slots[i].Live?
      && forall d: nat :: d < Dist(home, i, |slots|) ==> slots[At(home, d, |slots|)].Live?
    case None => forall i :: 0 <= i < |slots| ==> slots[i].Live?
  }

  /** The first free slot on the way from `home`; `None` only when there is none (SlotMatch::empty). */
  predicate FirstFree(slots: seq<Slot>, home: nat, r: Option<nat>)
    requires home < |slots|
  {
    match r
    case Some(i) => i < |slots| && slots[i] == Free && Reachable(slots, home, i)
    case None => forall i :: 0 <= i < |slots| ==> slots[i] != Free
  }

  // ----- counting

  lemma {:induction false} CountUpdate(slots: seq<Slot>, i: nat, s: Slot)
    requires i < |slots|
    ensures CountLive(slots[i := s]) + (if slots[i].Live? then 1 else 0)
         == CountLive(slots) + (if s.Live? then 1 else 0)
  {
    var n := |slots| - 1;
    if i == n {
      assert slots[i := s][..n] == slots[..n];
    } else {
      assert slots[i := s][..n] == slots[..n][i := s];
      CountUpdate(slots[..n], i, s);
    }
  }

  lemma {:induction false} CountBounds(slots: seq<Slot>)
    ensures CountLive(slots) <= |slots|
    ensures CountLive(slots) == |slots| <==> forall i :: 0 <= i < |slots| ==> slots[i].Live?
    ensures CountLive(slots) == 0 <==> forall i :: 0 <= i < |slots| ==> !slots[i].Live?
  {
    if slots != [] {
      var n := |slots| - 1;
      CountBounds(slots[..n]);
      assert forall i :: 0 <= i < n ==> slots[..n][i] == slots[i];
      assert CountLive(slots) == CountLive(slots[..n]) + if slots[n].Live? then 1 else 0;
    }
  }

  // ----- the table's steps

  /** A scan that stops at a free slot, or after every slot, without meeting the key proves it absent. */
  lemma ScanMissed(hash: Hash, slots: seq<Slot>, contents: map<string, string>, key: string, steps: nat)
    requires Represents(hash, slots, contents)
    requires steps <= |slots|
    requires var home := Home(hash, key, |slots|);
             && (forall d: nat :: d < steps ==> !Holds(slots, At(home, d, |slots|), key))
             && (steps < |slots| ==> slots[At(home, steps, |slots|)] == Free)
    ensures key !in contents
  {
    var home := Home(hash, key, |slots|);
    forall i: nat ensures !Holds(slots, i, key) {
      if i < |slots| && slots[i].Live? {
        assert Reachable(slots, Home(hash, slots[i].key, |slots|), i);
        assert At(home, Dist(home, i, |slots|), |slots|) == i;
      }
    }
  }

  lemma FoundUnique(hash: Hash, slots: seq<Slot>, contents: map<string, string>, key: string, i: nat)
    requires Represents(hash, slots, contents)
    requires Holds(slots, i, key)
    ensures key in contents && slots[i] == Live(key, contents[key])
    ensures forall j: nat :: Holds(slots, j, key) ==> j == i
  {
    assert slots[i].Live?;
  }

  lemma ReachableAfter(slots: seq<Slot>, i: nat, s: Slot, home: nat, j: nat)
    requires i < |slots| && home < |slots| && j < |slots|
    requires s != Free && Reachable(slots, home, j)
    ensures Reachable(slots[i := s], home, j)
  {
    var slots' := slots[i := s];
    forall d: nat | d < Dist(home, j, |slots'|) ensures slots'[At(home, d, |slots'|)] != Free {
      assert slots[At(home, d, |slots|)] != Free;
    }
  }

  /** Putting an absent key into a vacant, reachable slot. */
  lemma Insert(hash: Hash, slots: seq<Slot>, contents: map<string, string>, i: nat, key: string, value: string)
    requires Represents(hash, slots, contents)
    requires key !in contents
    requires i < |slots| && !slots[i].Live? && Reachable(slots, Home(hash, key, |slots|), i)
    ensures Represents(hash, slots[i := Live(key, value)], contents[key := value])
  {
    var slots' := slots[i := Live(key, value)];
    var contents' := contents[key := value];
    forall j | 0 <= j < |slots'| && slots'[j].Live?
      ensures slots'[j].key in contents' && contents'[slots'[j].key] == slots'[j].value
      ensures Reachable(slots', Home(hash, slots'[j].key, |slots'|), j)
    {
      ReachableAfter(slots, i, slots'[i], Home(hash, slots'[j].key, |slots|), j);
    }
    forall k | k in contents' ensures exists j: nat :: Holds(slots', j, k) {
      if k == key {
        assert Holds(slots', i, k);
      } else {
        var j :| Holds(slots, j, k);
        assert Holds(slots', j, k);
      }
    }
  }

  /** Giving a stored key a new value. */
  lemma Update(hash: Hash, slots: seq<Slot>, contents: map<string, string>, i: nat, key: string, value: string)
    requires Represents(hash, slots, contents)
    requires Holds(slots, i, key)
    ensures Represents(hash, slots[i := Live(key, value)], contents[key := value])
  {
    FoundUnique(hash, slots, contents, key, i);
    var slots' := slots[i := Live(key, value)];
    var contents' := contents[key := value];
    forall j | 0 <= j < |slots'| && slots'[j].Live?
      ensures slots'[j].key in contents' && contents'[slots'[j].key] == slots'[j].value
      ensures Reachable(slots', Home(hash, slots'[j].key, |slots'|), j)
    {
      if slots'[j].key == key {
        assert Holds(slots, j, key);
      }
      ReachableAfter(slots, i, slots'[i], Home(hash, slots'[j].key, |slots|), j);
    }
    forall k | k in contents' ensures exists j: nat :: Holds(slots', j, k) {
      var j :| Holds(slots, j, k);
      assert Holds(slots', j, k);
    }
  }

  /** Leaving a tombstone where a key was. */
  lemma Delete(hash: Hash, slots: seq<Slot>, contents: map<string, string>, i: nat, key: string)
    requires Represents(hash, slots, contents)
    requires Holds(slots, i, key)
    ensures Represents(hash, slots[i := Tombstone], contents - {key})
  {
    FoundUnique(hash, slots, contents, key, i);
    var slots' := slots[i := Tombstone];
    var contents' := contents - {key};
    forall j | 0 <= j < |slots'| && slots'[j].Live?
      ensures slots'[j].key in contents' && contents'[slots'[j].key] == slots'[j].value
      ensures Reachable(slots', Home(hash, slots'[j].key, |slots'|), j)
    {
      if slots'[j].key == key {
        assert Holds(slots, j, key);
      }
      ReachableAfter(slots, i, Tombstone, Home(hash, slots'[j].key, |slots|), j);
    }
    forall k | k in contents' ensures exists j: nat :: Holds(slots', j, k) {
      var j :| Holds(slots, j, k);
      assert Holds(slots', j, k);
    }
  }

  lemma AllFree(hash: Hash, slots: seq<Slot>)
    requires |slots| > 0 && forall i :: 0 <= i < |slots| ==> slots[i] == Free
    ensures Represents(hash, slots, map[])
    ensures CountLive(slots) == 0
  {
    CountBounds(slots);
  }

  /** A vacant first slot can be reached: nothing before it is free. */
  lemma VacantReachable(slots: seq<Slot>, home: nat, i: nat)
    requires home < |slots| && FirstVacant(slots, home, Some(i))
    ensures Reachable(slots, home, i)
  {
    forall d: nat | d < Dist(home, i, |slots|) ensures slots[At(home, d, |slots|)] != Free {
      assert slots[At(home, d, |slots|)].Live?;
    }
  }

  /** A full cyclic scan visits every slot. */
  lemma FullScan(slots: seq<Slot>, home: nat, p: Slot -> bool)
    requires home < |slots|
    requires forall d: nat :: d < |slots| ==> p(slots[At(home, d, |slots|)])
    ensures forall i :: 0 <= i < |slots| ==> p(slots[i])
  {
    forall i | 0 <= i < |slots| ensures p(slots[i]) {
      assert p(slots[At(home, Dist(home, i, |slots|), |slots|)]);
    }
  }

  /** Slot availability: with one slot to spare the search for a place cannot come back empty-handed. */
  lemma VacancyExists(slots: seq<Slot>, home: nat, r: Option<nat>)
    requires home < |slots| && FirstVacant(slots, home, r)
    ensures r.None? <==> CountLive(slots) == |slots|
  {
    CountBounds(slots);
  }

  /** How the size of a plain map moves. */
  lemma SizeMoves(m: map<string, string>, k: string, v: string)
    ensures k !in m ==> |m[k := v]| == |m| + 1
    ensures k in m ==> |m[k := v]| == |m| && |m - {k}| == |m| - 1
  {
    assert m[k := v].Keys == m.Keys + {k};
    assert (m - {k}).Keys == m.Keys - {k};
    assert |m.Keys| == |m| && |m[k := v].Keys| == |m[k := v]| && |(m - {k}).Keys| == |m - {k}|;
  }

  // ----- the scan of `get_entry`

  datatype SlotMatch = MatchFree | MatchOrFree | Match

  /** The answer each mode owes its caller. */
  predicate Answers(mode: SlotMatch, slots: seq<Slot>, contents: map<string, string>, home: nat, key: string, r: Option<nat>)
    requires home < |slots|
  {
    match mode
    case Match => Matched(slots, contents, key, r)
    case MatchOrFree => if key in contents then Matched(slots, contents, key, r) else FirstVacant(slots, home, r)
    case MatchFree => FirstFree(slots, home, r)
  }

  /** The slot that `get_entry` comes to after `checked` steps; `grave` is the first tombstone that a
      MatchOrFree scan met. */
  function Probe(mode: SlotMatch, slots: seq<Slot>, home: nat, key: string, checked: nat,
                 grave: Option<nat>): (r: Option<nat>)
    requires home < |slots| && checked <= |slots|
    requires grave.Some? ==> grave.value < |slots|
    ensures r.Some? ==> r.value < |slots|
    decreases |slots| - checked
  {
    if checked == |slots| then (if mode == Match then None else grave)
    else
      var i := At(home, checked, |slots|);
      if slots[i] == Free then
        if mode == Match then None else if grave.Some? then grave else Some(i)
      else if mode != MatchFree && Holds(slots, i, key) then Some(i)
      else Probe(mode, slots, home, key, checked + 1, Passed(mode, slots[i], i, grave))
  }

  function Passed(mode: SlotMatch, s: Slot, i: nat, grave: Option<nat>): Option<nat> {
    if mode == MatchOrFree && s == Tombstone && grave.None? then Some(i) else grave
  }

  /** The whole scan, from the home of the key. */
  function Search(mode: SlotMatch, hash: Hash, slots: seq<Slot>, key: string): (r: Option<nat>)
    requires |slots| > 0
    ensures r.Some? ==> r.value < |slots|
  {
    Probe(mode, slots, Home(hash, key, |slots|), key, 0, None)
  }

  /** `checked` slots have been passed. */
  predicate Scanned(mode: SlotMatch, slots: seq<Slot>, home: nat, key: string, checked: nat, grave: Option<nat>)
    requires home < |slots| && checked <= |slots|
  {
    && (forall d: nat :: d < checked ==> slots[At(home, d, |slots|)] != Free)
    && (mode != MatchFree ==> forall d: nat :: d < checked ==> !Holds(slots, At(home, d, |slots|), key))
    && (mode == MatchOrFree && grave.None? ==> forall d: nat :: d < checked ==> slots[At(home, d, |slots|)].Live?)
    && (grave.Some? ==> mode == MatchOrFree && FirstVacant(slots, home, grave))
  }

  lemma ScanPast(mode: SlotMatch, slots: seq<Slot>, home: nat, key: string, checked: nat, grave: Option<nat>)
    requires home < |slots| && checked < |slots| && Scanned(mode, slots, home, key, checked, grave)
    requires var i := At(home, checked, |slots|);
             slots[i] != Free && (mode != MatchFree ==> !Holds(slots, i, key))
    ensures var i := At(home, checked, |slots|);
            Scanned(mode, slots, home, key, checked + 1, Passed(mode, slots[i], i, grave))
  {
    assert Dist(home, At(home, checked, |slots|), |slots|) == checked;
  }

  /** What a scan has found: the key, or a free slot (or no more slots) after `steps` slots without it. */
  predicate Settled(mode: SlotMatch, slots: seq<Slot>, home: nat, key: string, r: Option<nat>, steps: nat)
    requires home < |slots|
  {
    || (mode != MatchFree && r.Some? && Holds(slots, r.value, key))
    || (&& steps <= |slots|
        && (mode != MatchFree ==> forall d: nat :: d < steps ==> !Holds(slots, At(home, d, |slots|), key))
        && (steps < |slots| ==> slots[At(home, steps, |slots|)] == Free)
        && match mode
           case Match => r.None?
           case MatchOrFree => FirstVacant(slots, home, r)
           case MatchFree => FirstFree(slots, home, r))
  }

  lemma {:induction false} ProbeSettles(mode: SlotMatch, slots: seq<Slot>, home: nat, key: string,
                                        checked: nat, grave: Option<nat>)
    returns (steps: nat)
    requires home < |slots| && checked <= |slots| && Scanned(mode, slots, home, key, checked, grave)
    ensures Settled(mode, slots, home, key, Probe(mode, slots, home, key, checked, grave), steps)
    decreases |slots| - checked
  {
    steps := checked;
    if checked == |slots| {
      if grave.None? && mode == MatchFree {
        FullScan(slots, home, (s: Slot) => s != Free);
      } else if grave.None? && mode == MatchOrFree {
        FullScan(slots, home, (s: Slot) => s.Live?);
      }
    } else {
      var i := At(home, checked, |slots|);
      assert Dist(home, i, |slots|) == checked;
      if slots[i] != Free && (mode == MatchFree || !Holds(slots, i, key)) {
        ScanPast(mode, slots, home, key, checked, grave);
        steps := ProbeSettles(mode, slots, home, key, checked + 1, Passed(mode, slots[i], i, grave));
      }
    }
  }

  /** On a table that stores a plain map, each mode finds what it owes its caller. */
  lemma SearchAnswers(mode: SlotMatch, hash: Hash, slots: seq<Slot>, contents: map<string, string>, key: string)
    requires Represents(hash, slots, contents)
    ensures Answers(mode, slots, contents, Home(hash, key, |slots|), key, Search(mode, hash, slots, key))
  {
    var home := Home(hash, key, |slots|);
    var steps := ProbeSettles(mode, slots, home, key, 0, None);
    var r := Search(mode, hash, slots, key);
    if mode != MatchFree {
      if r.Some? && Holds(slots, r.value, key) {
        FoundUnique(hash, slots, contents, key, r.value);
      } else {
        ScanMissed(hash, slots, contents, key, steps);
      }
    }
  }

  /** The scan for a free slot does not depend on what the table stores. */
  lemma SearchFree(hash: Hash, slots: seq<Slot>, key: string)
    requires |slots| > 0
    ensures FirstFree(slots, Home(hash, key, |slots|), Search(MatchFree, hash, slots, key))
  {
    var steps := ProbeSettles(MatchFree, slots, Home(hash, key, |slots|), key, 0, None);
  }
}
