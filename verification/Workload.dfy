/**
 * The benchmark's workloads (benchmark/src/main.cpp:182-341): the operations generated, the state they
 * are prepared for, their split over workers, and why no interleaving of the workers fails a check.
 * The backend is an atomic plain map; random draws are arbitrary.
 */
module Workloads {
  import opened Decimal

  datatype Workload = Pings | Sets | GetHits | GetMisses | DelHits | Mixed

  datatype Kind = Ping | Set | GetHit | GetMiss | Remove

  datatype Operation = Operation(kind: Kind, key: string)

  datatype Options = Options(workload: Workload, keyspace: nat, getRatio: nat)

  function KeyName(n: nat): string { "key:" + Format(n) }
  function MissingName(n: nat): string { "missing:" + Format(n) }
  function DeleteName(phase: string, i: nat): string { "delete:" + phase + ":" + Format(i) }

  /** Operation `i` of a phase is one that the workload may generate. */
  ghost predicate Generated(o: Options, phase: string, i: nat, op: Operation) {
    match o.workload
    case Pings => op.kind == Ping
    case Sets => op.kind == Set && exists n: nat :: n < o.keyspace && op.key == KeyName(n)
    case GetHits => op.kind == GetHit && exists n: nat :: n < o.keyspace && op.key == KeyName(n)
    case GetMisses => op.kind == GetMiss && exists n: nat :: n < o.keyspace && op.key == MissingName(n)
    case DelHits => op == Operation(Remove, DeleteName(phase, i))
    case Mixed =>
      && (op.kind == GetHit || op.kind == Set)
      && (o.getRatio >= 100 ==> op.kind == GetHit) && (o.getRatio == 0 ==> op.kind == Set)
      && exists n: nat :: n < o.keyspace && op.key == KeyName(n)
  }

  ghost predicate AllGenerated(o: Options, phase: string, ops: seq<Operation>) {
    forall i :: 0 <= i < |ops| ==> Generated(o, phase, i, ops[i])
  }

  /** Operation `i` as the draws decide it: the mixed workload takes two draws for each. */
  function Drawn(o: Options, draw: nat -> nat, phase: string, i: nat): Operation
    requires o.keyspace > 0
  {
    var key := draw(if o.workload == Mixed then 2 * i else i) % o.keyspace;
    match o.workload
    case Pings => Operation(Ping, "")
    case Sets => Operation(Set, KeyName(key))
    case GetHits => Operation(GetHit, KeyName(key))
    case GetMisses => Operation(GetMiss, MissingName(key))
    case DelHits => Operation(Remove, DeleteName(phase, i))
    case Mixed => Operation(if draw(2 * i + 1) % 100 < o.getRatio then GetHit else Set, KeyName(key))
  }

  /** The operation spelled out, as far as its key and its kind depend on the draws. */
  lemma DrawnOperation(o: Options, draw: nat -> nat, phase: string, i: nat)
    requires o.keyspace > 0
    ensures var op := Drawn(o, draw, phase, i);
            match o.workload
            case Pings => op.kind == Ping
            case Sets => op.kind == Set && op.key == "key:" + Format(draw(i) % o.keyspace)
            case GetHits => op.kind == GetHit && op.key == "key:" + Format(draw(i) % o.keyspace)
            case GetMisses => op.kind == GetMiss && op.key == "missing:" + Format(draw(i) % o.keyspace)
            case DelHits => op.kind == Remove && op.key == "delete:" + phase + ":" + Format(i)
            case Mixed =>
              && op.key == "key:" + Format(draw(2 * i) % o.keyspace)
              && (op.kind == GetHit <==> draw(2 * i + 1) % 100 < o.getRatio)
              && (op.kind == Set <==> draw(2 * i + 1) % 100 >= o.getRatio)
  {
    hide Format;
  }

  method GenerateOperations(o: Options, count: nat, draw: nat -> nat, phase: string) returns (ops: seq<Operation>)
    requires o.keyspace > 0
    ensures |ops| == count && AllGenerated(o, phase, ops)
    ensures forall i :: 0 <= i < count ==> ops[i] == Drawn(o, draw, phase, i)
  {
    ops := [];
    var draws := 0;
    for i := 0 to count
      invariant |ops| == i && AllGenerated(o, phase, ops)
      invariant draws == if o.workload == Mixed then 2 * i else i
      invariant forall j :: 0 <= j < i ==> ops[j] == Drawn(o, draw, phase, j)
    {
      var keyNumber := draw(draws) % o.keyspace;
      draws := draws + 1;
      var op;
      match o.workload {
        case Pings => op := Operation(Ping, "");
        case Sets => op := Operation(Set, KeyName(keyNumber));
        case GetHits => op := Operation(GetHit, KeyName(keyNumber));
        case GetMisses => op := Operation(GetMiss, MissingName(keyNumber));
        case DelHits => op := Operation(Remove, DeleteName(phase, i));
        case Mixed =>
          op := Operation(if draw(draws) % 100 < o.getRatio then GetHit else Set, KeyName(keyNumber));
          draws := draws + 1;
      }
      assert Generated(o, phase, i, op);
      ops := ops + [op];
    }
  }

  // ----- one operation

  /** Whether the backend's answer is the expected one, and the map afterwards. */
  function Execute(m: map<string, string>, op: Operation, value: string): (bool, map<string, string>) {
    match op.kind
    case Ping => (true, m)
    case Set => (true, m[op.key := value])
    case GetHit => (op.key in m && m[op.key] == value, m)
    case GetMiss => (op.key !in m, m)
    case Remove => (op.key in m, m - {op.key})
  }

  /** What `prepare` leaves in the backend. */
  ghost predicate Prepared(o: Options, ops: seq<Operation>, value: string, m: map<string, string>) {
    match o.workload
    case GetHits => HasKeyspace(o, value, m) && OnlyKeyspace(o, m)
    case Mixed => HasKeyspace(o, value, m) && OnlyKeyspace(o, m)
    case DelHits =>
      && (forall k :: k in m <==> exists i :: 0 <= i < |ops| && ops[i].key == k)
      && (forall k :: k in m ==> m[k] == value)
    case _ => m == map[]
  }

  ghost predicate HasKeyspace(o: Options, value: string, m: map<string, string>) {
    forall n: nat :: n < o.keyspace ==> KeyName(n) in m && m[KeyName(n)] == value
  }

  ghost predicate OnlyKeyspace(o: Options, m: map<string, string>) {
    forall k :: k in m ==> exists n: nat :: n < o.keyspace && k == KeyName(n)
  }

  method Prepare(o: Options, ops: seq<Operation>, value: string) returns (m: map<string, string>)
    ensures Prepared(o, ops, value, m)
  {
    m := map[];
    if o.workload == GetHits || o.workload == Mixed {
      for i := 0 to o.keyspace
        invariant forall n: nat :: n < i ==> KeyName(n) in m && m[KeyName(n)] == value
        invariant forall k :: k in m ==> exists n: nat :: n < i && k == KeyName(n)
      {
        m := m[KeyName(i) := value];
      }
    } else if o.workload == DelHits {
      for i := 0 to |ops|
        invariant forall k :: k in m <==> exists j :: 0 <= j < i && ops[j].key == k
        invariant forall k :: k in m ==> m[k] == value
      {
        m := m[ops[i].key := value];
      }
    }
  }

  // ----- the split over workers

  datatype Slice = Slice(begin: nat, count: nat) {
    function End(): nat { begin + count }
  }

  /** The slices follow one another from 0 to `n`. */
  predicate Covers(slices: seq<Slice>, n: nat) {
    && |slices| > 0
    && slices[0].begin == 0 && slices[|slices| - 1].End() == n
    && forall w :: 0 < w < |slices| ==> Follows(slices, w)
  }

  predicate Follows(slices: seq<Slice>, w: nat)
    requires 0 < w < |slices|
  {
    slices[w].begin == slices[w - 1].End()
  }

  function Share(n: nat, clients: nat, w: nat): nat
    requires clients > 0
  {
    n / clients + if w < n % clients then 1 else 0
  }

  function Shares(n: nat, clients: nat, w: nat): nat
    requires clients > 0
  {
    if w == 0 then 0 else Shares(n, clients, w - 1) + Share(n, clients, w - 1)
  }

  lemma {:induction false} SharesClosed(n: nat, clients: nat, w: nat)
    requires clients > 0
    ensures Shares(n, clients, w) == w * (n / clients) + if w < n % clients then w else n % clients
  {
    if w > 0 {
      SharesClosed(n, clients, w - 1);
      assert w * (n / clients) == (w - 1) * (n / clients) + n / clients;
    }
  }

  lemma SharesTotal(n: nat, clients: nat)
    requires clients > 0
    ensures Shares(n, clients, clients) == n
  {
    SharesClosed(n, clients, clients);
  }

  lemma SharesStep(n: nat, clients: nat, w: nat)
    requires clients > 0
    ensures Share(n, clients, w) == n / clients + if w < n % clients then 1 else 0
    ensures Shares(n, clients, 0) == 0
    ensures Shares(n, clients, w + 1) == Shares(n, clients, w) + Share(n, clients, w)
  {
  }

  /** No worker has more than one operation more than another, and the first ones have it. */
  lemma SharesEven(n: nat, clients: nat, v: nat, w: nat)
    requires clients > 0 && v <= w
    ensures Share(n, clients, w) <= Share(n, clients, v) <= Share(n, clients, w) + 1
  {
  }

  method Partition(n: nat, clients: nat) returns (slices: seq<Slice>)
    requires clients > 0
    ensures |slices| == clients && Covers(slices, n)
    ensures forall w :: 0 <= w < clients ==> slices[w].count == Share(n, clients, w)
  {
    hide Share, Shares;
    slices := [];
    var offset := 0;
    SharesStep(n, clients, 0);
    for w := 0 to clients
      invariant |slices| == w && offset == Shares(n, clients, w)
      invariant w > 0 ==> slices[0].begin == 0 && slices[w - 1].End() == offset
      invariant forall v :: 0 < v < w ==> Follows(slices, v)
      invariant forall v :: 0 <= v < w ==> slices[v].count == Share(n, clients, v)
    {
      SharesStep(n, clients, w);
      var count := n / clients + if w < n % clients then 1 else 0;
      ghost var before := slices;
      slices := slices + [Slice(offset, count)];
      offset := offset + count;
      forall v | 0 < v < w + 1 ensures Follows(slices, v) {
        assert v < w ==> Follows(before, v);
      }
    }
    SharesTotal(n, clients);
  }

  lemma {:induction false} SlicesOrdered(slices: seq<Slice>, n: nat, v: nat, w: nat)
    requires Covers(slices, n) && v < w < |slices|
    ensures slices[v].End() <= slices[w].begin
    decreases w
  {
    assert Follows(slices, w);
    if v < w - 1 {
      SlicesOrdered(slices, n, v, w - 1);
    }
  }

  lemma SlicesBounded(slices: seq<Slice>, n: nat, w: nat)
    requires Covers(slices, n) && w < |slices|
    ensures slices[w].End() <= n
  {
    if w < |slices| - 1 {
      SlicesOrdered(slices, n, w, |slices| - 1);
    }
  }

  lemma {:induction false} SliceOf(slices: seq<Slice>, n: nat, i: nat, w: nat) returns (v: nat)
    requires Covers(slices, n) && w < |slices| && i < slices[w].End()
    ensures v <= w && slices[v].begin <= i < slices[v].End()
    decreases w
  {
    if slices[w].begin <= i {
      v := w;
    } else {
      assert Follows(slices, w);
      v := SliceOf(slices, n, i, w - 1);
    }
  }

  // ----- the workers

  datatype State = State(m: map<string, string>, next: seq<nat>, failed: seq<bool>)

  /** Worker `w` performs its next operation, unless it has finished or has failed before. */
  function Step(ops: seq<Operation>, slices: seq<Slice>, value: string, s: State, w: nat): (s': State)
    requires |s.next| == |s.failed| == |slices|
    ensures |s'.next| == |s'.failed| == |slices|
  {
    if w >= |slices| || s.failed[w] || s.next[w] >= slices[w].End() || s.next[w] >= |ops| then s
    else
      var (ok, m) := Execute(s.m, ops[s.next[w]], value);
      if ok then s.(m := m, next := s.next[w := s.next[w] + 1])
      else s.(m := m, failed := s.failed[w := true])
  }

  function Run(ops: seq<Operation>, slices: seq<Slice>, value: string, s: State, schedule: seq<nat>): (s': State)
    requires |s.next| == |s.failed| == |slices|
    ensures |s'.next| == |s'.failed| == |slices|
    decreases |schedule|
  {
    if schedule == [] then s
    else Run(ops, slices, value, Step(ops, slices, value, s, schedule[0]), schedule[1..])
  }

  function Start(slices: seq<Slice>, m: map<string, string>): State {
    State(m, seq(|slices|, w requires 0 <= w < |slices| => slices[w].begin), seq(|slices|, _ => false))
  }

  /** The check of an operation fails exactly when it must, on whatever the backend holds; then the worker stops,
      and otherwise it goes on to its next operation.  Only a set and a delete change what is held. */
  lemma StepChecks(ops: seq<Operation>, slices: seq<Slice>, value: string, s: State, w: nat)
    requires |s.next| == |s.failed| == |slices| && w < |slices|
    requires !s.failed[w] && s.next[w] < slices[w].End() && s.next[w] < |ops|
    ensures var (op, s') := (ops[s.next[w]], Step(ops, slices, value, s, w));
            && |s'.next| == |s'.failed| == |slices|
            && (s'.failed[w] <==>
                  match op.kind
                  case GetHit => op.key !in s.m || s.m[op.key] != value
                  case GetMiss => op.key in s.m
                  case Remove => op.key !in s.m
                  case Ping => false
                  case Set => false)
            && s'.next[w] == (if s'.failed[w] then s.next[w] else s.next[w] + 1)
            && (forall v :: 0 <= v < |slices| && v != w ==> s'.next[v] == s.next[v] && s'.failed[v] == s.failed[v])
            && (op.kind != Set && op.kind != Remove ==> s'.m == s.m)
            && (op.kind == Set ==> op.key in s'.m && s'.m[op.key] == value)
            && (op.kind == Remove ==> op.key !in s'.m)
            && (forall k :: k != op.key ==> (k in s'.m <==> k in s.m) && (k in s.m ==> s'.m[k] == s.m[k]))
  {
  }

  /** A worker that has failed or finished, and anyone who is no worker, does nothing. */
  lemma StepIdle(ops: seq<Operation>, slices: seq<Slice>, value: string, s: State, w: nat)
    requires |s.next| == |s.failed| == |slices|
    requires w < |slices| ==> s.failed[w] || s.next[w] >= slices[w].End()
    ensures Step(ops, slices, value, s, w) == s
  {
  }

  /** Operation `i` has been performed. */
  predicate Done(slices: seq<Slice>, next: seq<nat>, i: nat)
    requires |next| == |slices|
  {
    exists w :: 0 <= w < |slices| && slices[w].begin <= i < next[w]
  }

  /** Operation `i` is still to be performed. */
  predicate Open(slices: seq<Slice>, next: seq<nat>, i: nat)
    requires |next| == |slices|
  {
    exists w :: 0 <= w < |slices| && next[w] <= i < slices[w].End()
  }

  ghost predicate Sound(o: Options, phase: string, ops: seq<Operation>, slices: seq<Slice>, value: string, s: State) {
    && |s.next| == |s.failed| == |slices|
    && AllGenerated(o, phase, ops) && Covers(slices, |ops|)
    && (forall w :: 0 <= w < |slices| ==> slices[w].begin <= s.next[w] <= slices[w].End() && !s.failed[w])
    && match o.workload
       case GetHits => HasKeyspace(o, value, s.m) && OnlyKeyspace(o, s.m)
       case Mixed => HasKeyspace(o, value, s.m) && OnlyKeyspace(o, s.m)
       case Sets => Collected(ops, slices, value, s)
       case DelHits =>
         forall k :: k in s.m <==> exists i :: 0 <= i < |ops| && ops[i].key == k && Open(slices, s.next, i)
       case _ => s.m == map[]
  }

  /** The backend holds the keys of the operations performed so far, each with the value. */
  ghost predicate Collected(ops: seq<Operation>, slices: seq<Slice>, value: string, s: State)
    requires |s.next| == |slices|
  {
    && (forall k :: k in s.m <==> exists i :: 0 <= i < |ops| && ops[i].key == k && Done(slices, s.next, i))
    && (forall k :: k in s.m ==> s.m[k] == value)
  }

  lemma StartSound(o: Options, phase: string, ops: seq<Operation>, slices: seq<Slice>, value: string,
                   m: map<string, string>)
    requires AllGenerated(o, phase, ops) && Covers(slices, |ops|) && Prepared(o, ops, value, m)
    ensures Sound(o, phase, ops, slices, value, Start(slices, m))
  {
    var s := Start(slices, m);
    if o.workload == DelHits {
      forall i | 0 <= i < |ops| ensures Open(slices, s.next, i) {
        var w := SliceOf(slices, |ops|, i, |slices| - 1);
        assert s.next[w] <= i < slices[w].End();
      }
    }
    assert forall i: nat :: !Done(slices, s.next, i);
  }

  /** Different delete operations have different keys. */
  lemma DeleteNamesDistinct(phase: string, i: nat, j: nat)
    requires DeleteName(phase, i) == DeleteName(phase, j)
    ensures i == j
  {
    var p := "delete:" + phase + ":";
    assert DeleteName(phase, i)[|p|..] == Format(i) && DeleteName(phase, j)[|p|..] == Format(j);
    FormatInjective(i, j);
  }

  /** Moving worker `w` on closes the operation it stood at, and no other. */
  lemma OpenAfter(slices: seq<Slice>, n: nat, next: seq<nat>, w: nat, i: nat)
    requires Covers(slices, n) && |next| == |slices| && w < |slices|
    requires slices[w].begin <= next[w] < slices[w].End()
    requires forall v :: 0 <= v < |slices| ==> slices[v].begin <= next[v]
    ensures Open(slices, next[w := next[w] + 1], i) <==> Open(slices, next, i) && i != next[w]
  {
    var next' := next[w := next[w] + 1];
    if Open(slices, next', i) {
      var v :| 0 <= v < |slices| && next'[v] <= i < slices[v].End();
      assert next[v] <= i < slices[v].End();
      if v < w {
        SlicesOrdered(slices, n, v, w);
      } else if w < v {
        SlicesOrdered(slices, n, w, v);
      }
    }
    if Open(slices, next, i) && i != next[w] {
      var v :| 0 <= v < |slices| && next[v] <= i < slices[v].End();
      assert next'[v] <= i < slices[v].End();
    }
  }

  lemma StepSound(o: Options, phase: string, ops: seq<Operation>, slices: seq<Slice>, value: string, s: State, w: nat)
    requires Sound(o, phase, ops, slices, value, s)
    ensures Sound(o, phase, ops, slices, value, Step(ops, slices, value, s, w))
  {
    if w < |slices| && s.next[w] < slices[w].End() {
      SlicesBounded(slices, |ops|, w);
      var i := s.next[w];
      assert Generated(o, phase, i, ops[i]);
      if o.workload == DelHits {
        DelStepSound(o, phase, ops, slices, value, s, w);
      } else if o.workload == Sets {
        SetStepSound(ops, slices, value, s, w);
      }
    }
  }

  /** After the delete at `next[w]`, the keys present are those of the operations still open. */
  lemma DelKey(phase: string, ops: seq<Operation>, slices: seq<Slice>, m: map<string, string>, next: seq<nat>,
               w: nat, k: string)
    requires Covers(slices, |ops|) && |next| == |slices|
    requires forall j :: 0 <= j < |ops| ==> ops[j] == Operation(Remove, DeleteName(phase, j))
    requires forall v :: 0 <= v < |slices| ==> slices[v].begin <= next[v]
    requires w < |slices| && next[w] < slices[w].End() <= |ops|
    requires k in m <==> exists j :: 0 <= j < |ops| && ops[j].key == k && Open(slices, next, j)
    ensures k in m - {ops[next[w]].key} <==>
            exists j :: 0 <= j < |ops| && ops[j].key == k && Open(slices, next[w := next[w] + 1], j)
  {
    var next' := next[w := next[w] + 1];
    if k in m - {ops[next[w]].key} {
      var j :| 0 <= j < |ops| && ops[j].key == k && Open(slices, next, j);
      OpenAfter(slices, |ops|, next, w, j);
      assert Open(slices, next', j);
    }
    if j :| 0 <= j < |ops| && ops[j].key == k && Open(slices, next', j) {
      OpenAfter(slices, |ops|, next, w, j);
      if ops[j].key == ops[next[w]].key {
        DeleteNamesDistinct(phase, next[w], j);
      }
    }
  }

  lemma DelStepSound(o: Options, phase: string, ops: seq<Operation>, slices: seq<Slice>, value: string, s: State, w: nat)
    requires Sound(o, phase, ops, slices, value, s) && o.workload == DelHits
    requires w < |slices| && s.next[w] < slices[w].End() <= |ops|
    ensures Sound(o, phase, ops, slices, value, Step(ops, slices, value, s, w))
  {
    hide Open;
    forall j | 0 <= j < |ops| ensures ops[j] == Operation(Remove, DeleteName(phase, j)) {
      assert Generated(o, phase, j, ops[j]);
    }
    var i := s.next[w];
    IsOpen(slices, s.next, w, i);
    var s' := Step(ops, slices, value, s, w);
    forall k ensures k in s'.m <==> exists j :: 0 <= j < |ops| && ops[j].key == k && Open(slices, s'.next, j) {
      DelKey(phase, ops, slices, s.m, s.next, w, k);
    }
  }

  lemma SetStepSound(ops: seq<Operation>, slices: seq<Slice>, value: string, s: State, w: nat)
    requires |s.next| == |s.failed| == |slices| && w < |slices| && Collected(ops, slices, value, s)
    requires !s.failed[w] && slices[w].begin <= s.next[w] < slices[w].End() <= |ops| && ops[s.next[w]].kind == Set
    ensures Collected(ops, slices, value, Step(ops, slices, value, s, w))
  {
    hide Done;
    var (n, s') := (s.next[w], Step(ops, slices, value, s, w));
    assert s'.m == s.m[ops[n].key := value] && s'.next == s.next[w := n + 1];
    DoneAfter(slices, s.next, w);
    IsDone(slices, s'.next, w, n);
    forall k ensures k in s'.m <==> exists i :: 0 <= i < |ops| && ops[i].key == k && Done(slices, s'.next, i) {
      if i :| 0 <= i < |ops| && ops[i].key == k && Done(slices, s.next, i) {
        assert Done(slices, s'.next, i);
      }
      if i :| 0 <= i < |ops| && ops[i].key == k && Done(slices, s'.next, i) {
        assert i == n || Done(slices, s.next, i);
      }
      if k == ops[n].key {
        assert Done(slices, s'.next, n);
      }
    }
  }

  lemma IsDone(slices: seq<Slice>, next: seq<nat>, w: nat, i: nat)
    requires |next| == |slices| && w < |slices| && slices[w].begin <= i < next[w]
    ensures Done(slices, next, i)
  {
  }

  lemma DoneAfter(slices: seq<Slice>, next: seq<nat>, w: nat)
    requires |next| == |slices| && w < |slices| && slices[w].begin <= next[w]
    ensures forall i: nat :: Done(slices, next[w := next[w] + 1], i) <==> Done(slices, next, i) || i == next[w]
  {
    var next' := next[w := next[w] + 1];
    forall i: nat ensures Done(slices, next', i) <==> Done(slices, next, i) || i == next[w] {
      if v :| 0 <= v < |slices| && slices[v].begin <= i < next[v] {
        assert slices[v].begin <= i < next'[v];
      }
      if i == next[w] {
        assert slices[w].begin <= i < next'[w];
      }
    }
  }

  lemma IsOpen(slices: seq<Slice>, next: seq<nat>, w: nat, i: nat)
    requires |next| == |slices| && w < |slices| && next[w] <= i < slices[w].End()
    ensures Open(slices, next, i)
  {
  }

  lemma {:induction false} RunSound(o: Options, phase: string, ops: seq<Operation>, slices: seq<Slice>, value: string,
                                    s: State, schedule: seq<nat>)
    requires Sound(o, phase, ops, slices, value, s)
    ensures Sound(o, phase, ops, slices, value, Run(ops, slices, value, s, schedule))
    decreases |schedule|
  {
    if schedule != [] {
      StepSound(o, phase, ops, slices, value, s, schedule[0]);
      RunSound(o, phase, ops, slices, value, Step(ops, slices, value, s, schedule[0]), schedule[1..]);
    }
  }

  /** Every worker has performed its whole slice. */
  predicate Finished(slices: seq<Slice>, s: State)
    requires |s.next| == |slices|
  {
    forall w :: 0 <= w < |slices| ==> s.next[w] == slices[w].End()
  }

  /** What the backend holds: at every moment, and when a workload that changes it has finished. */
  ghost predicate Holds(o: Options, ops: seq<Operation>, slices: seq<Slice>, value: string, s: State)
    requires |s.next| == |slices|
  {
    match o.workload
    case GetHits => HasKeyspace(o, value, s.m) && OnlyKeyspace(o, s.m)
    case Mixed => HasKeyspace(o, value, s.m) && OnlyKeyspace(o, s.m)
    case Sets =>
      && (forall k :: k in s.m ==> s.m[k] == value && exists i :: 0 <= i < |ops| && ops[i].key == k)
      && (Finished(slices, s) ==> forall i :: 0 <= i < |ops| ==> ops[i].key in s.m)
    case DelHits => Finished(slices, s) ==> s.m == map[]
    case _ => s.m == map[]
  }

  lemma SoundHolds(o: Options, phase: string, ops: seq<Operation>, slices: seq<Slice>, value: string, s: State)
    requires Sound(o, phase, ops, slices, value, s)
    ensures Holds(o, ops, slices, value, s)
  {
    if o.workload == Sets && Finished(slices, s) {
      forall i | 0 <= i < |ops| ensures ops[i].key in s.m {
        var w := SliceOf(slices, |ops|, i, |slices| - 1);
        IsDone(slices, s.next, w, i);
      }
    }
  }

  /** Prepared and split as the benchmark does it, no interleaving of the workers fails a check, and what the backend
      holds is known: after a whole set workload exactly the keys of the operations, after a whole delete workload nothing,
      and otherwise what was prepared. */
  lemma EveryInterleavingPasses(o: Options, phase: string, ops: seq<Operation>, slices: seq<Slice>, value: string,
                                m: map<string, string>, schedule: seq<nat>)
    requires AllGenerated(o, phase, ops) && Covers(slices, |ops|) && Prepared(o, ops, value, m)
    ensures var s := Run(ops, slices, value, Start(slices, m), schedule);
            && |s.next| == |s.failed| == |slices|
            && (forall w :: 0 <= w < |slices| ==> !s.failed[w])
            && Holds(o, ops, slices, value, s)
  {
    StartSound(o, phase, ops, slices, value, m);
    RunSound(o, phase, ops, slices, value, Start(slices, m), schedule);
    SoundHolds(o, phase, ops, slices, value, Run(ops, slices, value, Start(slices, m), schedule));
  }

  /** How often it is the worker's turn. */
  function Turns(schedule: seq<nat>, w: nat): nat {
    if schedule == [] then 0 else (if schedule[0] == w then 1 else 0) + Turns(schedule[1..], w)
  }

  /** Every worker gets as far as its turns take it. */
  lemma {:induction false} RunAdvances(o: Options, phase: string, ops: seq<Operation>, slices: seq<Slice>, value: string,
                                       s: State, schedule: seq<nat>, w: nat)
    requires Sound(o, phase, ops, slices, value, s) && w < |slices|
    ensures var n := Run(ops, slices, value, s, schedule).next[w];
            n == if s.next[w] + Turns(schedule, w) <= slices[w].End() then s.next[w] + Turns(schedule, w) else slices[w].End()
    decreases |schedule|
  {
    hide Sound;
    RunSound(o, phase, ops, slices, value, s, schedule);
    SoundBounds(o, phase, ops, slices, value, s);
    if schedule != [] {
      var s' := Step(ops, slices, value, s, schedule[0]);
      StepSound(o, phase, ops, slices, value, s, schedule[0]);
      SoundBounds(o, phase, ops, slices, value, s');
      RunAdvances(o, phase, ops, slices, value, s', schedule[1..], w);
    }
  }

  /** With enough turns for everyone, every worker finishes. */
  lemma EnoughTurns(o: Options, phase: string, ops: seq<Operation>, slices: seq<Slice>, value: string,
                    m: map<string, string>, schedule: seq<nat>)
    requires Sound(o, phase, ops, slices, value, Start(slices, m))
    ensures (forall w :: 0 <= w < |slices| ==> Turns(schedule, w) >= slices[w].count) ==>
              Finished(slices, Run(ops, slices, value, Start(slices, m), schedule))
  {
    hide Sound, Run;
    forall w | 0 <= w < |slices| && Turns(schedule, w) >= slices[w].count
      ensures Run(ops, slices, value, Start(slices, m), schedule).next[w] == slices[w].End()
    {
      RunAdvances(o, phase, ops, slices, value, Start(slices, m), schedule, w);
    }
  }

  lemma SoundBounds(o: Options, phase: string, ops: seq<Operation>, slices: seq<Slice>, value: string, s: State)
    requires Sound(o, phase, ops, slices, value, s)
    ensures |s.next| == |s.failed| == |slices|
    ensures forall w :: 0 <= w < |slices| ==>
              slices[w].begin <= s.next[w] <= slices[w].End() <= |ops| && !s.failed[w]
  {
    forall w | 0 <= w < |slices| ensures slices[w].End() <= |ops| {
      SlicesBounded(slices, |ops|, w);
    }
  }

  lemma RunStep(ops: seq<Operation>, slices: seq<Slice>, value: string, s: State, schedule: seq<nat>, i: nat)
    requires |s.next| == |s.failed| == |slices| && i < |schedule|
    ensures Run(ops, slices, value, s, schedule[i..]) ==
            Run(ops, slices, value, Step(ops, slices, value, s, schedule[i]), schedule[i + 1..])
  {
    assert schedule[i..][1..] == schedule[i + 1..];
  }

  lemma RunNone(ops: seq<Operation>, slices: seq<Slice>, value: string, s: State)
    requires |s.next| == |s.failed| == |slices|
    ensures Run(ops, slices, value, s, []) == s
  {
  }

  /** One phase from end to end: generated, split, prepared, and run under any schedule. */
  method Phase(o: Options, count: nat, draw: nat -> nat, phase: string, clients: nat, value: string, schedule: seq<nat>)
    returns (ops: seq<Operation>, slices: seq<Slice>, prepared: map<string, string>, end: State)
    requires o.keyspace > 0 && clients > 0
    ensures |ops| == count && forall i :: 0 <= i < count ==> ops[i] == Drawn(o, draw, phase, i)
    ensures |slices| == clients && Covers(slices, count)
    ensures Prepared(o, ops, value, prepared)
    ensures end == Run(ops, slices, value, Start(slices, prepared), schedule)
    ensures |end.next| == |end.failed| == clients
    ensures forall w :: 0 <= w < clients ==> !end.failed[w] && slices[w].begin <= end.next[w] <= slices[w].End()
    ensures (forall w :: 0 <= w < clients ==> Turns(schedule, w) >= slices[w].count) ==> Finished(slices, end)
    ensures Holds(o, ops, slices, value, end)
  {
    hide AllGenerated, Prepared, Covers, Execute, Run, Step, Drawn, Holds, Turns, Sound, Finished;
    ops := GenerateOperations(o, count, draw, phase);
    slices := Partition(count, clients);
    prepared := Prepare(o, ops, value);
    end := Start(slices, prepared);
    StartSound(o, phase, ops, slices, value, prepared);
    SoundBounds(o, phase, ops, slices, value, end);
    assert schedule[0..] == schedule;
    EnoughTurns(o, phase, ops, slices, value, prepared, schedule);
    for i := 0 to |schedule|
      invariant Sound(o, phase, ops, slices, value, end) && |end.next| == |end.failed| == |slices|
      invariant Run(ops, slices, value, Start(slices, prepared), schedule) == Run(ops, slices, value, end, schedule[i..])
    {
      StepSound(o, phase, ops, slices, value, end, schedule[i]);
      RunStep(ops, slices, value, end, schedule, i);
      end := Step(ops, slices, value, end, schedule[i]);
      SoundBounds(o, phase, ops, slices, value, end);
    }
    SoundBounds(o, phase, ops, slices, value, end);
    SoundHolds(o, phase, ops, slices, value, end);
    assert schedule[|schedule|..] == [];
    RunNone(ops, slices, value, end);
  }
}
