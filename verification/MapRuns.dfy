/**
 * Whole runs of the hash map against a plain `map`: any sequence of calls on a fresh
 * `FastMap` gives the plain map's answers, up to the first call that the program
 * cannot survive, and that call is known beforehand.
 */
module MapRuns {
  import opened Wrappers
  import opened ArenaImage
  import opened ProbeTable
  import opened MapImage
  import opened TableSteps
  import opened FastMaps

  datatype Op =
    | Get(key: string)
    | Set(key: string, value: string)
    | Remove(key: string)
    | Clear

  datatype Answer =
    | Value(found: Option<string>)
    | Stored
    | Removed(was: bool)
    | Cleared

  /** Keys to be stored are not empty, and all strings are shorter than 4 GiB. */
  predicate Usable(op: Op) {
    op.Set? ==> 0 < |op.key| < WORD32 && |op.value| < WORD32
  }

  predicate AllUsable(ops: seq<Op>) {
    forall i :: 0 <= i < |ops| ==> Usable(ops[i])
  }

  // ----- the plain map

  function After(m: map<string, string>, op: Op): map<string, string> {
    match op
    case Get(_) => m
    case Set(k, v) => m[k := v]
    case Remove(k) => m - {k}
    case Clear => map[]
  }

  function Reply(m: map<string, string>, op: Op): Answer {
    match op
    case Get(k) => Value(if k in m then Some(m[k]) else None)
    case Set(_, _) => Stored
    case Remove(k) => Removed(k in m)
    case Clear => Cleared
  }

  function PlainState(ops: seq<Op>): map<string, string> {
    if ops == [] then map[]
    else After(PlainState(ops[..|ops| - 1]), ops[|ops| - 1])
  }

  function PlainAnswer(ops: seq<Op>, i: nat): Answer
    requires i < |ops|
  {
    Reply(PlainState(ops[..i]), ops[i])
  }

  // ----- the answers, without the map in between

  /** The call stores, removes or clears what is under `k`. */
  predicate Touches(op: Op, k: string) {
    op.Clear? || (op.Set? && op.key == k) || (op.Remove? && op.key == k)
  }

  /** Call `j` stores `v` under `k`, and no call between it and call `i` touches `k`. */
  predicate StoredAt(ops: seq<Op>, i: nat, k: string, v: string, j: nat)
    requires i <= |ops|
  {
    j < i && ops[j] == Set(k, v) && forall l :: j < l < i ==> !Touches(ops[l], k)
  }

  /** Before call `i`, the last call to touch `k` stored `v` under it. */
  ghost predicate Held(ops: seq<Op>, i: nat, k: string, v: string)
    requires i <= |ops|
  {
    exists j: nat :: StoredAt(ops, i, k, v, j)
  }

  lemma {:induction false} HeldIffStored(ops: seq<Op>, i: nat, k: string, v: string)
    requires i <= |ops|
    ensures (k in PlainState(ops[..i]) && PlainState(ops[..i])[k] == v) <==> Held(ops, i, k, v)
  {
    if i > 0 {
      var n := i - 1;
      HeldIffStored(ops, n, k, v);
      assert ops[..i][..n] == ops[..n] && ops[..i][n] == ops[n];
      if Touches(ops[n], k) {
        assert ops[n] == Set(k, v) ==> StoredAt(ops, i, k, v, n);
      } else {
        if j: nat :| StoredAt(ops, n, k, v, j) {
          assert StoredAt(ops, i, k, v, j);
        }
        if j: nat :| StoredAt(ops, i, k, v, j) {
          assert StoredAt(ops, n, k, v, j);
        }
      }
    }
  }

  lemma HeldAll(ops: seq<Op>, i: nat, k: string)
    requires i <= |ops|
    ensures var m := PlainState(ops[..i]);
            && (k in m <==> exists v :: Held(ops, i, k, v))
            && forall v :: Held(ops, i, k, v) <==> k in m && m[k] == v
  {
    hide PlainState, Held;
    var m := PlainState(ops[..i]);
    forall v ensures Held(ops, i, k, v) <==> k in m && m[k] == v {
      HeldIffStored(ops, i, k, v);
    }
    if k in m {
      assert Held(ops, i, k, m[k]);
    }
  }

  /** A `get` answers the value last stored under the key, if it has not been removed or cleared since. */
  lemma GetAnswer(ops: seq<Op>, i: nat, k: string)
    requires i < |ops| && ops[i] == Get(k)
    ensures forall v :: PlainAnswer(ops, i) == Value(Some(v)) <==> Held(ops, i, k, v)
    ensures PlainAnswer(ops, i) == Value(None) <==> forall v :: !Held(ops, i, k, v)
  {
    hide PlainState, Held;
    HeldAll(ops, i, k);
  }

  /** A `remove` answers whether a value was under the key. */
  lemma RemoveAnswer(ops: seq<Op>, i: nat, k: string)
    requires i < |ops| && ops[i] == Remove(k)
    ensures PlainAnswer(ops, i) == Removed(exists v :: Held(ops, i, k, v))
  {
    hide PlainState, Held;
    HeldAll(ops, i, k);
  }

  // ----- calls that the program does not survive

  /** A table of fewer than four slots never grows, and the tail of a shorter value is
      cleared with the wrong length. */
  function Fault(rule: TailRule, capacity: nat, m: map<string, string>, op: Op): SetOutcome {
    if !op.Set? then Done
    else if op.key !in m && capacity < 4 && |m| == capacity then NullEntry
    else if rule.AsWritten? && op.key in m && |op.value| < |m[op.key]| then Overrun
    else Done
  }

  /** The same for call `i` of a run. */
  function FaultAt(rule: TailRule, capacity: nat, ops: seq<Op>, i: nat): SetOutcome
    requires i < |ops|
  {
    Fault(rule, capacity, PlainState(ops[..i]), ops[i])
  }

  /** No call of the run is one of those. */
  ghost predicate Survivable(rule: TailRule, capacity: nat, ops: seq<Op>) {
    forall i :: 0 <= i < |ops| ==> FaultAt(rule, capacity, ops, i) == Done
  }

  lemma SurvivableExtend(rule: TailRule, capacity: nat, ops: seq<Op>, i: nat)
    requires i < |ops| && Survivable(rule, capacity, ops[..i])
    ensures PlainState(ops[..i + 1]) == After(PlainState(ops[..i]), ops[i])
    ensures FaultAt(rule, capacity, ops, i) == Done ==> Survivable(rule, capacity, ops[..i + 1])
    ensures FaultAt(rule, capacity, ops, i) != Done ==> !Survivable(rule, capacity, ops)
  {
    var next := ops[..i + 1];
    assert next[..i] == ops[..i];
    forall j | 0 <= j < i ensures FaultAt(rule, capacity, next, j) == Done {
      assert next[..j] == ops[..i][..j];
      assert FaultAt(rule, capacity, ops[..i], j) == Done;
    }
  }

  method Perform(m: FastMap, op: Op) returns (o: SetOutcome, a: Answer)
    requires m.Valid() && Usable(op)
    modifies m.Repr
    ensures o == NullEntry <==> op.Set? && op.key !in old(m.contents) && |old(m.contents)| == old(m.capacity)
    ensures o == Overrun <==>
              op.Set? && m.rule.AsWritten? && op.key in old(m.contents) && |op.value| < |old(m.contents)[op.key]|
    ensures o == Done ==>
              m.Valid() && fresh(m.Repr - old(m.Repr))
              && m.contents == After(old(m.contents), op) && a == Reply(old(m.contents), op)
    ensures old(m.capacity) >= 4 ==> o != NullEntry
    ensures m.capacity == old(m.capacity) || (old(m.capacity) >= 4 && m.capacity == 2 * old(m.capacity))
  {
    hide FastMap.Valid, FastMap.Readable, FastMap.Owns, SetOn, GetOn, Legible;
    m.Load();
    o := Done;
    match op {
      case Get(k) =>
        var v := m.Get(k);
        a := Value(v);
      case Set(k, v) =>
        o := m.Set(k, v);
        a := Stored;
      case Remove(k) =>
        var b := m.Remove(k);
        a := Removed(b);
      case Clear =>
        m.Clear();
        a := Cleared;
    }
  }

  lemma NothingYet(rule: TailRule, capacity: nat, ops: seq<Op>)
    ensures ops[..0] == [] && Survivable(rule, capacity, [])
  {
  }

  /** A run on a fresh map, stopped at the first call that faults. */
  method Replay(capacity: nat, hash: Hash, rule: TailRule, ops: seq<Op>)
    returns (answers: seq<Answer>, fault: SetOutcome)
    requires capacity > 0 && AllUsable(ops)
    ensures |answers| <= |ops|
    ensures forall i :: 0 <= i < |answers| ==> answers[i] == PlainAnswer(ops, i)
    ensures fault == Done <==> Survivable(rule, capacity, ops)
    ensures fault == Done ==> |answers| == |ops|
    ensures fault != Done ==>
              && |answers| < |ops|
              && Survivable(rule, capacity, ops[..|answers|])
              && fault == FaultAt(rule, capacity, ops, |answers|)
  {
    hide FastMap.Valid, Survivable, After;
    var m := new FastMap(capacity, hash, rule);
    answers := [];
    NothingYet(rule, capacity, ops);
    for i := 0 to |ops|
      invariant m.Valid() && fresh(m.Repr) && m.rule == rule
      invariant m.capacity == capacity || (capacity >= 4 && m.capacity >= 4)
      invariant m.contents == PlainState(ops[..i])
      invariant |answers| == i && forall j :: 0 <= j < i ==> answers[j] == PlainAnswer(ops, j)
      invariant Survivable(rule, capacity, ops[..i])
    {
      assert Usable(ops[i]);
      SurvivableExtend(rule, capacity, ops, i);
      var o, a := Perform(m, ops[i]);
      assert o == FaultAt(rule, capacity, ops, i);
      if o != Done {
        return answers, o;
      }
      answers := answers + [a];
    }
    assert ops[..|ops|] == ops;
    return answers, Done;
  }

  // ----- when no run can fault

  /** `n` keys of different lengths. */
  function ManySets(n: nat): (ops: seq<Op>)
    ensures |ops| == n
  {
    seq(n, i requires 0 <= i < n => Set(Zeros(i + 1), ""))
  }

  lemma {:induction false} ManySetsFill(n: nat)
    ensures var m := PlainState(ManySets(n));
            && |m| == n
            && forall k :: k in m ==> |k| <= n
  {
    if n > 0 {
      ManySetsFill(n - 1);
      var m := PlainState(ManySets(n - 1));
      assert ManySets(n)[..n - 1] == ManySets(n - 1);
      assert Zeros(n) !in m;
      SizeMoves(m, Zeros(n), "");
    }
  }

  lemma SmallTableFaults(rule: TailRule, capacity: nat)
    requires 0 < capacity < 4
    ensures AllUsable(ManySets(capacity + 1))
    ensures !Survivable(rule, capacity, ManySets(capacity + 1))
  {
    var ops := ManySets(capacity + 1);
    ManySetsFill(capacity);
    assert ops[..capacity] == ManySets(capacity);
    assert Zeros(capacity + 1) !in PlainState(ops[..capacity]);
    assert FaultAt(rule, capacity, ops, capacity) == NullEntry;
  }

  lemma ShorterValueFaults(capacity: nat)
    requires capacity > 0
    ensures var ops := [Set("k", "ab"), Set("k", "a")];
            AllUsable(ops) && !Survivable(AsWritten, capacity, ops)
  {
    var ops := [Set("k", "ab"), Set("k", "a")];
    assert ops[..1] == [Set("k", "ab")];
    assert ops[..1][..0] == [];
    assert PlainState(ops[..1]) == map["k" := "ab"];
    assert FaultAt(AsWritten, capacity, ops, 1) == Overrun;
  }

  /** Every run on a fresh map survives exactly when the table starts with at least four
      slots and the tail is cleared as intended. */
  lemma AllRunsSurvive(rule: TailRule, capacity: nat)
    requires capacity > 0
    ensures (forall ops :: AllUsable(ops) ==> Survivable(rule, capacity, ops)) <==> capacity >= 4 && rule.Intended?
  {
    if capacity < 4 {
      SmallTableFaults(rule, capacity);
    }
    if rule.AsWritten? {
      ShorterValueFaults(capacity);
    }
  }
}
