/** The server's poll loop over many clients (server/src/server.cpp:60-148). */
module Servers {
  import opened Wrappers
  import opened Framing
  import opened Sockets
  import opened Messages
  import opened FastMaps
  import opened Executor
  import opened Connections
  import ArenaImage
  import BlockingMessages

  /** One completed request, and whose it was. */
  datatype LogEntry = LogEntry(client: ClientConnection, exchange: Exchange)

  /** The plain map after all requests of the log, executed one after the other. */
  function StateOf(log: seq<LogEntry>): map<string, string> {
    if log == [] then map[]
    else Execute(StateOf(log[..|log| - 1]), log[|log| - 1].exchange.request).1
  }

  /** Every reply in the log is the one that the plain map gives at that point, and no request that was
      executed before the process was lost shortens a value. */
  ghost predicate Faithful(rule: ArenaImage.TailRule, log: seq<LogEntry>) {
    forall i :: 0 <= i < |log| ==> FaithfulAt(rule, log, i)
  }

  predicate FaithfulAt(rule: ArenaImage.TailRule, log: seq<LogEntry>, i: nat)
    requires i < |log|
  {
    && log[i].exchange.reply == Execute(StateOf(log[..i]), log[i].exchange.request).0.output
    && (rule.AsWritten? ==> !Shortens(StateOf(log[..i]), log[i].exchange.request))
  }

  /** What the log says about one client. */
  function Project(log: seq<LogEntry>, c: ClientConnection): seq<Exchange> {
    if log == [] then []
    else
      var e := log[|log| - 1];
      Project(log[..|log| - 1], c) + if e.client == c then [e.exchange] else []
  }

  /** The requests that the calls of the handler completed, in the order of the calls. */
  function LogOf(calls: seq<Call>): seq<LogEntry> {
    if calls == [] then []
    else LogOf(calls[..|calls| - 1]) + Logged(calls[|calls| - 1])
  }

  function Logged(call: Call): seq<LogEntry> {
    match call.entry
    case Some(e) => [LogEntry(call.client, e)]
    case None => []
  }

  /** Calls of the handler that the process survived, and what they left in the log. */
  ghost predicate Recorded(rule: ArenaImage.TailRule, calls: seq<Call>, log: seq<LogEntry>, ever: set<ClientConnection>) {
    && (forall i :: 0 <= i < |calls| ==> Proper(calls[i]) && calls[i].outcome != Crash && calls[i].client in ever)
    && (forall i :: 0 <= i < |log| ==> log[i].client in ever)
    && log == LogOf(calls) && Faithful(rule, log)
  }

  /** The next request of the client's stream, the one that the call read, shortens a stored value. */
  ghost predicate NextShortens(log: seq<LogEntry>, call: Call) {
    var (n, requests) := (|Project(log, call.client)|, ParseAll(call.client.stream).messages);
    && n < |requests| && call.read == Some(Message(requests[n]))
    && Shortens(StateOf(log), requests[n])
  }

  lemma {:induction false} ProjectNew(rule: ArenaImage.TailRule, calls: seq<Call>, log: seq<LogEntry>,
                                      ever: set<ClientConnection>, c: ClientConnection)
    requires Recorded(rule, calls, log, ever) && c !in ever
    ensures Project(log, c) == [] && Recorded(rule, calls, log, ever + {c})
  {
    NotInLog(log, c);
  }

  lemma {:induction false} NotInLog(log: seq<LogEntry>, c: ClientConnection)
    requires forall i :: 0 <= i < |log| ==> log[i].client != c
    ensures Project(log, c) == []
  {
    if log != [] {
      NotInLog(log[..|log| - 1], c);
    }
  }

  /** An executed request becomes the last of the log, in its own client's transcript and no other. */
  lemma LogGrows(rule: ArenaImage.TailRule, log: seq<LogEntry>, call: Call, m: map<string, string>)
    requires Faithful(rule, log) && Executed(StateOf(log), call.entry, m)
    requires rule.AsWritten? && call.entry.Some? ==> !Shortens(StateOf(log), call.entry.value.request)
    ensures Faithful(rule, log + Logged(call)) && StateOf(log + Logged(call)) == m
    ensures forall d :: Project(log + Logged(call), d) ==
                        Project(log, d) + if d == call.client then Entries(call.entry) else []
  {
    hide Execute, Shortens;
    var log' := log + Logged(call);
    assert log'[..|log|] == log;
    if call.entry == None {
      assert log' == log;
    }
    forall i | 0 <= i < |log'| ensures FaithfulAt(rule, log', i) {
      if i < |log| {
        assert FaithfulAt(rule, log, i);
        assert log'[..i] == log[..i];
      }
    }
  }

  lemma EntryRead(call: Call)
    requires Proper(call) && call.entry.Some?
    ensures call.read == Some(Message(call.entry.value.request))
  {
  }

  lemma RecordedOn(rule: ArenaImage.TailRule, calls: seq<Call>, log: seq<LogEntry>, ever: set<ClientConnection>,
                   call: Call, m: map<string, string>)
    requires Recorded(rule, calls, log, ever) && Executed(StateOf(log), call.entry, m)
    requires Proper(call) && call.outcome != Crash && call.client in ever && !Ruinous(rule, StateOf(log), call.read)
    ensures Recorded(rule, calls + [call], log + Logged(call), ever) && StateOf(log + Logged(call)) == m
    ensures forall d :: Project(log + Logged(call), d) ==
                        Project(log, d) + if d == call.client then Entries(call.entry) else []
  {
    hide Execute, Shortens, StateOf, Project, Executed, Faithful, Proper;
    if call.entry.Some? {
      EntryRead(call);
    }
    LogGrows(rule, log, call, m);
    assert (calls + [call])[..|calls|] == calls;
  }

  /** What is read next when the client is still served. */
  lemma RuinedBy(log: seq<LogEntry>, call: Call, transcript: seq<Exchange>)
    requires Proper(call) && call.outcome == Crash && transcript == Project(log, call.client)
    requires call.read.Some? && call.read.value.Message? && Shortens(StateOf(log), call.read.value.text)
    requires var left := ParseAll(call.before.Input());
             ParseAll(call.client.stream) == Transcript(Requests(transcript) + left.messages, left.end)
    ensures NextShortens(log, call)
  {
    hide Shortens, StateOf, Project, Parse;
    var text := call.read.value.text;
    assert Reads(call.before.Input(), call.read.value, call.after.incoming);
    assert ParseAll(call.before.Input()).messages[0] == text;
  }

  // ----- who stays

  /** A client in its place, and what is to be seen of its connection. */
  datatype Seat = Seat(client: ClientConnection, look: Snapshot)

  predicate Stays(turn: Option<Call>) {
    turn.None? || turn.value.outcome == Keep
  }

  /** The seats after the turns: who has had no call is as before, and who was not kept is gone. */
  function Left(seats: seq<Seat>, turns: seq<Option<Call>>): seq<Seat>
    requires |seats| == |turns|
  {
    if seats == [] then []
    else
      var seat := if turns[0].Some? then seats[0].(look := turns[0].value.after) else seats[0];
      (if Stays(turns[0]) then [seat] else []) + Left(seats[1..], turns[1..])
  }

  /** The calls of the turns, last client first. */
  function CallsOf(turns: seq<Option<Call>>): seq<Call> {
    if turns == [] then []
    else CallsOf(turns[1..]) + if turns[0].Some? then [turns[0].value] else []
  }

  /** The client of the seat is called exactly when there is an event, with that event, and as it was seen. */
  predicate Called(seat: Seat, events: Revents, turn: Option<Call>) {
    && (turn.Some? <==> events.Any())
    && (turn.Some? ==>
          && turn.value.client == seat.client && turn.value.events == events && turn.value.before == seat.look
          && Proper(turn.value))
  }

  /** The clients from `index` on have had their turns. */
  predicate Turned(seats: seq<Seat>, revents: seq<Revents>, index: nat, turns: seq<Option<Call>>) {
    && |seats| == |revents| == index + |turns|
    && forall i :: 0 <= i < |turns| ==>
         Called(seats[index + i], revents[index + i], turns[i]) && (turns[i].Some? ==> turns[i].value.outcome != Crash)
  }

  /** Those before `index` are still in place, followed by those who stay. */
  function Now(seats: seq<Seat>, index: nat, turns: seq<Option<Call>>): seq<Seat>
    requires |seats| == index + |turns|
  {
    seats[..index] + Left(seats[index..], turns)
  }

  /** The turn of the seat at `index`, which ends on its place or takes it out. */
  function After(seats: seq<Seat>, index: nat, turn: Option<Call>): seq<Seat>
    requires index < |seats|
  {
    if turn.None? then seats
    else if turn.value.outcome == Keep then seats[index := seats[index].(look := turn.value.after)]
    else seats[..index] + seats[index + 1..]
  }

  /** The client of the next seat was called, and the process did not survive it. */
  predicate Stopped(seats: seq<Seat>, revents: seq<Revents>, turns: seq<Option<Call>>) {
    && 0 < |turns| <= |seats| == |revents| && turns[0].Some? && turns[0].value.outcome == Crash
    && var index := |seats| - |turns|;
    && Called(seats[index], revents[index], turns[0]) && Turned(seats, revents, index + 1, turns[1..])
  }

  lemma TurnedNone(seats: seq<Seat>, revents: seq<Revents>)
    requires |seats| == |revents|
    ensures Turned(seats, revents, |seats|, []) && Now(seats, |seats|, []) == seats && CallsOf([]) == []
  {
    assert seats[|seats|..] == [];
  }

  lemma TurnedAt(seats: seq<Seat>, revents: seq<Revents>, index: nat, turns: seq<Option<Call>>)
    requires Turned(seats, revents, index + 1, turns)
    ensures |Now(seats, index + 1, turns)| > index
    ensures Now(seats, index + 1, turns)[index] == seats[index]
    ensures |seats| == |revents| == index + 1 + |turns|
  {
  }

  lemma StoppedAt(seats: seq<Seat>, revents: seq<Revents>, index: nat, turns: seq<Option<Call>>, turn: Option<Call>)
    requires |seats| == |revents| == index + 1 + |turns|
    requires Turned(seats, revents, index + 1, turns) && Called(seats[index], revents[index], turn)
    requires turn.Some? && turn.value.outcome == Crash
    ensures Stopped(seats, revents, [turn] + turns)
  {
    hide Turned, Called;
    assert ([turn] + turns)[1..] == turns;
  }

  lemma CallsCons(turn: Option<Call>, turns: seq<Option<Call>>)
    ensures CallsOf([turn]) == if turn.Some? then [turn.value] else []
    ensures CallsOf([turn] + turns) == CallsOf(turns) + CallsOf([turn])
  {
    assert ([turn] + turns)[1..] == turns && [turn][1..] == [];
  }

  lemma TurnedStep(seats: seq<Seat>, revents: seq<Revents>, index: nat, turns: seq<Option<Call>>, turn: Option<Call>)
    requires Turned(seats, revents, index + 1, turns) && Called(seats[index], revents[index], turn)
    requires turn.Some? ==> turn.value.outcome != Crash
    ensures Turned(seats, revents, index, [turn] + turns)
    ensures |Now(seats, index + 1, turns)| > index
    ensures Now(seats, index, [turn] + turns) == After(Now(seats, index + 1, turns), index, turn)
  {
    hide Called, Left;
    var turns' := [turn] + turns;
    forall i | 0 <= i < |turns'|
      ensures Called(seats[index + i], revents[index + i], turns'[i]) && (turns'[i].Some? ==> turns'[i].value.outcome != Crash)
    {
      if i > 0 {
        assert turns'[i] == turns[i - 1];
        assert Called(seats[index + 1 + (i - 1)], revents[index + 1 + (i - 1)], turns[i - 1]);
      }
    }
    hide Turned;
    NowStep(seats, index, turns, turn);
  }

  lemma NowStep(seats: seq<Seat>, index: nat, turns: seq<Option<Call>>, turn: Option<Call>)
    requires |seats| == index + 1 + |turns|
    ensures |Now(seats, index + 1, turns)| > index
    ensures Now(seats, index + 1, turns)[index] == seats[index]
    ensures Now(seats, index, [turn] + turns) == After(Now(seats, index + 1, turns), index, turn)
  {
    hide Left;
    var (seat, rest) := (seats[index], Left(seats[index + 1..], turns));
    var now := Now(seats, index + 1, turns);
    assert now == seats[..index] + ([seat] + rest);
    assert seats[index..] == [seat] + seats[index + 1..];
    LeftCons(seat, seats[index + 1..], turn, turns);
    assert now[..index] == seats[..index] && now[index + 1..] == rest;
    assert now[index := seat.(look := if turn.Some? then turn.value.after else seat.look)]
        == seats[..index] + ([seat.(look := if turn.Some? then turn.value.after else seat.look)] + rest);
    assert seats[..index] + ([] + rest) == seats[..index] + rest;
  }

  lemma LeftCons(seat: Seat, seats: seq<Seat>, turn: Option<Call>, turns: seq<Option<Call>>)
    requires |seats| == |turns|
    ensures Left([seat] + seats, [turn] + turns) ==
            (if Stays(turn) then [if turn.Some? then seat.(look := turn.value.after) else seat] else []) + Left(seats, turns)
  {
    assert ([seat] + seats)[1..] == seats && ([turn] + turns)[1..] == turns;
  }

  lemma TurnedAll(seats: seq<Seat>, turns: seq<Option<Call>>)
    requires |seats| == |turns|
    ensures Now(seats, 0, turns) == Left(seats, turns)
  {
    assert seats[0..] == seats && seats[..0] == [];
  }

  // ----- poll

  /** poll reports what was asked for, to write while a reply is pending and to read otherwise, and errors. */
  function Mask(pending: bool, events: Revents): Revents {
    if pending then events.(input := false) else events.(output := false)
  }

  lemma PolledRequested(seats: seq<Seat>, events: seq<Revents>)
    ensures |Polled(seats, events)| == |seats|
    ensures forall i :: 0 <= i < |seats| ==> Requested(seats[i].look.pending, Polled(seats, events)[i])
  {
  }

  const Nothing := Revents(false, false, false, false, false)

  function Polled(seats: seq<Seat>, events: seq<Revents>): seq<Revents> {
    seq(|seats|, i requires 0 <= i < |seats| => Mask(seats[i].look.pending, if i < |events| then events[i] else Nothing))
  }

  // ----- accept

  /** A connection taken from the listening socket, or an accept that was interrupted. */
  datatype Arrival =
    | Arrival(incoming: string, recvs: seq<Event>, sends: seq<Event>, configured: bool)
    | NoArrival

  /** The connections that are accepted and configured. */
  function Configured(arrivals: seq<Arrival>): (r: seq<Arrival>)
    ensures forall i :: 0 <= i < |r| ==> r[i].Arrival?
  {
    if arrivals == [] then []
    else
      var a := arrivals[|arrivals| - 1];
      Configured(arrivals[..|arrivals| - 1]) + if a.Arrival? && a.configured then [a] else []
  }

  lemma ConfiguredStep(arrivals: seq<Arrival>, i: nat)
    requires i < |arrivals|
    ensures Configured(arrivals[..i + 1]) ==
            Configured(arrivals[..i]) + if arrivals[i].Arrival? && arrivals[i].configured then [arrivals[i]] else []
  {
    assert arrivals[..i + 1][..i] == arrivals[..i];
  }

  ghost predicate Arrived(seat: Seat, a: Arrival)
    requires a.Arrival?
  {
    && seat.client.stream == a.incoming
    && seat.look == Snapshot("", a.incoming, a.recvs, false, "", "", a.sends)
  }

  /** `after` is `before` followed by one new client for each configured arrival. */
  ghost predicate Joined(before: seq<Seat>, arrivals: seq<Arrival>, after: seq<Seat>) {
    var joining := Configured(arrivals);
    && |after| == |before| + |joining| && after[..|before|] == before
    && forall i :: 0 <= i < |joining| ==> Arrived(after[|before| + i], joining[i])
  }

  lemma NoneJoined(before: seq<Seat>, arrivals: seq<Arrival>)
    ensures Joined(before, arrivals[..0], before)
  {
  }

  lemma OneJoined(before: seq<Seat>, arrivals: seq<Arrival>, i: nat, now: seq<Seat>, seat: Seat)
    requires i < |arrivals| && Joined(before, arrivals[..i], now)
    requires arrivals[i].Arrival? && arrivals[i].configured && Arrived(seat, arrivals[i])
    ensures Joined(before, arrivals[..i + 1], now + [seat])
  {
    hide Arrived;
    ConfiguredStep(arrivals, i);
  }

  lemma NotJoined(before: seq<Seat>, arrivals: seq<Arrival>, i: nat, now: seq<Seat>)
    requires i < |arrivals| && Joined(before, arrivals[..i], now)
    requires arrivals[i].Arrival? ==> !arrivals[i].configured
    ensures Joined(before, arrivals[..i + 1], now)
  {
    ConfiguredStep(arrivals, i);
    assert Configured(arrivals[..i]) + [] == Configured(arrivals[..i]);
  }

  // ----- runs

  datatype Round = Round(revents: seq<Revents>, arrivals: seq<Arrival>)

  /** One round as it happened: who was there, the turns they had, and who is there afterwards. */
  datatype Turnover = Turnover(before: seq<Seat>, turns: seq<Option<Call>>, after: seq<Seat>)

  /** No client has two seats. */
  ghost predicate Distinct(seats: seq<Seat>) {
    forall i, j :: 0 <= i < j < |seats| ==> seats[i].client != seats[j].client
  }

  /** The clients of the seats from `from` on are none of these. */
  ghost predicate Outside(seats: seq<Seat>, from: nat, clients: set<ClientConnection>) {
    forall i :: from <= i < |seats| ==> seats[i].client !in clients
  }

  /** The clients of the seats from `from` on had no seat before. */
  ghost predicate Strangers(seats: seq<Seat>, from: nat, before: seq<Seat>) {
    forall i, j :: from <= i < |seats| && 0 <= j < |before| ==> seats[i].client != before[j].client
  }

  /** Poll, serve, accept: every event that poll reports is served once, last client first; the outcomes
      of the calls decide who stays, and who arrives joins at the end. */
  ghost predicate Happened(t: Turnover, r: Round) {
    && |t.turns| == |t.before|
    && Turned(t.before, Polled(t.before, r.revents), 0, t.turns)
    && Joined(Left(t.before, t.turns), r.arrivals, t.after)
    && Distinct(t.before) && Strangers(t.after, |Left(t.before, t.turns)|, t.before)
  }

  /** The rounds lead from the seats `first` to the seats `last`. */
  ghost predicate Chained(history: seq<Turnover>, rounds: seq<Round>, first: seq<Seat>, last: seq<Seat>)
    requires |history| <= |rounds|
  {
    if history == [] then last == first
    else
      var n := |history| - 1;
      && last == history[n].after
      && Happened(history[n], rounds[n])
      && Chained(history[..n], rounds, first, history[n].before)
  }

  function AllCalls(history: seq<Turnover>): seq<Call> {
    if history == [] then []
    else AllCalls(history[..|history| - 1]) + CallsOf(history[|history| - 1].turns)
  }

  lemma ChainStart(rounds: seq<Round>, first: seq<Seat>)
    ensures Chained([], rounds, first, first) && AllCalls([]) == []
  {
  }

  lemma Unknown(seats: seq<Seat>, from: nat, known: set<ClientConnection>, before: seq<Seat>)
    requires Outside(seats, from, known) && forall i :: 0 <= i < |before| ==> before[i].client in known
    ensures Strangers(seats, from, before)
  {
  }

  lemma Happens(t: Turnover, r: Round)
    requires |t.turns| == |t.before| && Turned(t.before, Polled(t.before, r.revents), 0, t.turns)
    requires Joined(Left(t.before, t.turns), r.arrivals, t.after)
    requires Distinct(t.before) && Strangers(t.after, |Left(t.before, t.turns)|, t.before)
    ensures Happened(t, r)
  {
  }

  lemma NoCalls()
    ensures CallsOf([]) == []
  {
  }

  lemma ChainGrows(history: seq<Turnover>, rounds: seq<Round>, first: seq<Seat>, t: Turnover)
    requires |history| < |rounds|
    requires Chained(history, rounds, first, t.before) && Happened(t, rounds[|history|])
    ensures Chained(history + [t], rounds, first, t.after)
    ensures AllCalls(history + [t]) == AllCalls(history) + CallsOf(t.turns)
  {
    hide Happened;
    assert (history + [t])[..|history|] == history;
  }

  class Server {
    var clients: seq<ClientConnection>
    const store: FastMap

    ghost var ever: set<ClientConnection>  // every client that was ever accepted
    ghost var calls: seq<Call>             // every call of the handler
    ghost var log: seq<LogEntry>
    ghost var Repr: set<object>            // the memory of all these clients

    /** The server, its store and its clients share no memory. */
    ghost predicate Apart()
      reads this, store
    {
      && this !in store.Repr
      && this !in Repr && Repr !! store.Repr
      && (forall c :: c in ever ==> c in c.Repr && c.Repr <= Repr)
      && (forall c, d :: c in ever && d in ever && c != d ==> c.Repr !! d.Repr)
      && (forall c :: c in clients ==> c in ever)
      && (forall i, j :: 0 <= i < j < |clients| ==> clients[i] != clients[j])
    }

    ghost predicate ValidBut(gone: set<ClientConnection>)
      reads this, store, store.Repr, Repr
    {
      && Apart()
      && store.Valid() && store.capacity >= 4 && Bounded(store.contents)
      && (forall c :: c in ever ==> c.Wired() && c.Answered())  // also after it has been dropped
      && (forall c :: c in ever ==> c.transcript == Project(log, c))
      && (forall c :: c in clients && c !in gone ==> c.Open())
      && Recorded(store.rule, calls, log, ever) && store.contents == StateOf(log)
    }

    ghost predicate Valid()
      reads this, store, store.Repr, Repr
    {
      ValidBut({})
    }

    /** The process is lost: the last call of the handler came upon a request that shortens a value. */
    ghost predicate Ruined()
      reads this, store
    {
      && store.rule.AsWritten?
      && calls != []
      && var (n, call) := (|calls| - 1, calls[|calls| - 1]);
      && Recorded(store.rule, calls[..n], log, ever)
      && Proper(call) && call.outcome == Crash && call.client in ever && NextShortens(log, call)
    }

    /** The clients as they are now. */
    ghost predicate Seated(seats: seq<Seat>)
      reads this, store, Repr
    {
      && Apart()
      && |seats| == |clients|
      && forall i :: 0 <= i < |clients| ==>
           seats[i].client == clients[i] && clients[i] in ever && clients[i].Wired() && clients[i].Snap() == seats[i].look
    }

    constructor (store: FastMap)
      requires store.Valid() && store.capacity >= 4 && store.contents == map[]
      ensures Valid() && this.store == store
      ensures Seated([]) && calls == [] && log == [] && ever == {}
    {
      this.store := store;
      clients, ever, calls, log, Repr := [], {}, [], [], {};
    }

    /** The handler of one client, and what is put on record of it. */
    method Attend(client: ClientConnection, events: Revents) returns (o: Outcome, ghost call: Call)
      requires Valid() && client in clients && client.Asked(events)
      modifies this`log, this`calls, store.Repr, client.Repr
      ensures call.client == client && call.events == events && call.outcome == o && Proper(call)
      ensures calls == old(calls) + [call]
      ensures client.Wired()
      ensures call.before == old(client.Snap()) && call.after == client.Snap()
      ensures forall c :: c in ever && c != client ==> unchanged(c.Repr)
      ensures o == Crash ==> Ruined()
      ensures o != Crash ==> ValidBut(if o == Drop then {client} else {}) && fresh(store.Repr - old(store.Repr))
      ensures o == Keep ==> !events.Lost()
    {
      hide FastMap.Valid, Bounded, Execute, Executed, Shortens, Project, StateOf, Recorded, Proper, NextShortens, ParseAll;
      hide ClientConnection.Wired, ClientConnection.Answered, ClientConnection.Open, ClientConnection.Snap;
      hide ClientConnection.Asked;
      client.Reading();
      ghost var (record, before, transcript) := (log, calls, client.transcript);
      o, call := client.Handle(events, store);
      calls := before + [call];
      if o == Crash {
        RuinedBy(record, call, transcript);
        assert calls[..|calls| - 1] == before;
        return;
      }
      RecordedOn(store.rule, before, record, ever, call, store.contents);
      log := record + Logged(call);
    }

    /** One turn of the descending loop: the handler of client `index`, and its removal if it is done. */
    method Dispatch(index: nat, events: Revents, ghost seats: seq<Seat>) returns (o: Outcome, ghost call: Call)
      requires Valid() && Seated(seats) && index < |seats|
      requires events.Any() && Requested(seats[index].look.pending, events)
      modifies this`clients, this`log, this`calls, store.Repr, Repr
      ensures ever == old(ever) && Repr == old(Repr)
      ensures call.outcome == o && Called(seats[index], events, Some(call))
      ensures calls == old(calls) + [call]
      ensures o == Crash ==> Ruined()
      ensures o != Crash ==> Valid() && fresh(store.Repr - old(store.Repr)) && Seated(After(seats, index, Some(call)))
    {
      hide FastMap.Valid, Bounded, StateOf, Project, Recorded, Proper, Ruined;
      hide ClientConnection.Wired, ClientConnection.Answered, ClientConnection.Open;
      hide ClientConnection.Snap, ClientConnection.Asked;
      var client := clients[index];
      client.Polling(events);
      o, call := Attend(client, events);
      if o == Crash {
        return;
      }
      ghost var mid := seats[index := seats[index].(look := call.after)];
      assert Seated(mid);
      if o == Drop {
        Erased(clients, index);
        clients := clients[..index] + clients[index + 1..];
      }
    }

    /** A call of the handler if there is an event. */
    method Serve(index: nat, events: Revents, ghost seats: seq<Seat>) returns (crashed: bool, ghost turn: Option<Call>)
      requires Valid() && Seated(seats) && index < |seats| && Requested(seats[index].look.pending, events)
      modifies this`clients, this`log, this`calls, store.Repr, Repr
      ensures ever == old(ever) && Repr == old(Repr)
      ensures Called(seats[index], events, turn)
      ensures calls == old(calls) + CallsOf([turn])
      ensures crashed <==> turn.Some? && turn.value.outcome == Crash
      ensures crashed ==> Ruined()
      ensures !crashed ==> Valid() && fresh(store.Repr - old(store.Repr)) && Seated(After(seats, index, turn))
    {
      hide Valid, ValidBut, Apart, Seated, Ruined, Proper;
      assert calls + [] == calls;
      if !events.Any() {
        return false, None;
      }
      var o;
      ghost var call;
      o, call := Dispatch(index, events, seats);
      return o == Crash, Some(call);
    }

    /** The clients from `index` on have had their turns, and `done` are the calls before that. */
    ghost predicate Serving(seats: seq<Seat>, revents: seq<Revents>, index: nat, turns: seq<Option<Call>>, done: seq<Call>)
      reads this, store, store.Repr, Repr
    {
      && Valid()
      && |seats| == |revents| == index + |turns|
      && Turned(seats, revents, index, turns) && Seated(Now(seats, index, turns))
      && calls == done + CallsOf(turns)
    }

    /** One turn of the descending loop. */
    method Turn(index: nat, revents: seq<Revents>, ghost seats: seq<Seat>, ghost turns: seq<Option<Call>>,
                ghost done: seq<Call>)
      returns (crashed: bool, ghost turns': seq<Option<Call>>)
      requires Serving(seats, revents, index + 1, turns, done)
      requires Requested(seats[index].look.pending, revents[index])
      modifies this`clients, this`log, this`calls, store.Repr, Repr
      ensures ever == old(ever) && Repr == old(Repr)
      ensures !crashed ==> Serving(seats, revents, index, turns', done) && fresh(store.Repr - old(store.Repr))
      ensures crashed ==> Ruined() && Stopped(seats, revents, turns') && calls == done + CallsOf(turns')
    {
      hide Valid, ValidBut, Ruined, Now, Turned, Called, After, CallsOf, Left, Apart, Stopped, Seated;
      TurnedAt(seats, revents, index, turns);
      ghost var (now, turn) := (Now(seats, index + 1, turns), None);
      SeatedLength(now);
      crashed, turn := Serve(index, revents[index], now);
      CallsCons(turn, turns);
      turns' := [turn] + turns;
      if crashed {
        StoppedAt(seats, revents, index, turns, turn);
      } else {
        TurnedStep(seats, revents, index, turns, turn);
      }
    }

    lemma SeatedKnown(seats: seq<Seat>)
      requires Seated(seats)
      ensures Distinct(seats) && forall i :: 0 <= i < |seats| ==> seats[i].client in ever
    {
    }

    lemma SeatedLength(seats: seq<Seat>)
      requires Seated(seats)
      ensures |seats| == |clients|
    {
    }

    /** The descending loop of `run`: every reported event is served by one call of the handler for the client
        it was reported for, and those whose call ended in `Keep`, or who had none, keep their order. */
    method HandleEvents(revents: seq<Revents>, ghost seats: seq<Seat>)
      returns (crashed: bool, ghost turns: seq<Option<Call>>)
      requires Valid() && Seated(seats) && |revents| == |seats|
      requires forall i :: 0 <= i < |seats| ==> Requested(seats[i].look.pending, revents[i])
      modifies this`clients, this`log, this`calls, store.Repr, Repr
      ensures ever == old(ever) && Repr == old(Repr)
      ensures calls == old(calls) + CallsOf(turns)
      ensures !crashed ==> Valid() && fresh(store.Repr - old(store.Repr))
      ensures !crashed ==> |turns| == |seats| && Turned(seats, revents, 0, turns) && Seated(Left(seats, turns))
      ensures crashed ==> Ruined() && Stopped(seats, revents, turns)
    {
      hide Valid, ValidBut, Ruined, Now, Turned, CallsOf, Left, Apart, Stopped, Seated;
      turns := [];
      SeatedLength(seats);
      TurnedNone(seats, revents);
      assert calls == calls + CallsOf(turns);
      for index := |clients| downto 0
        invariant Serving(seats, revents, index, turns, old(calls))
        invariant fresh(store.Repr - old(store.Repr)) && ever == old(ever) && Repr == old(Repr)
      {
        hide Serving;
        crashed, turns := Turn(index, revents, seats, turns, old(calls));
        if crashed {
          return;
        }
      }
      TurnedAll(seats, turns);
      crashed := false;
    }

    lemma Erased(cs: seq<ClientConnection>, index: nat)
      requires index < |cs| && forall i, j :: 0 <= i < j < |cs| ==> cs[i] != cs[j]
      ensures var cs' := cs[..index] + cs[index + 1..];
              && (forall c :: c in cs' ==> c in cs && c != cs[index])
              && (forall i, j :: 0 <= i < j < |cs'| ==> cs'[i] != cs'[j])
    {
    }

    /** `accept_clients`: whatever could be accepted and configured joins at the end. */
    method AcceptClients(arrivals: seq<Arrival>, ghost before: seq<Seat>) returns (ghost after: seq<Seat>)
      requires Valid() && Seated(before)
      modifies this`clients, this`ever, this`Repr
      ensures Valid() && fresh(Repr - old(Repr))
      ensures Seated(after) && Joined(before, arrivals, after) && Outside(after, |before|, old(ever))
    {
      hide Valid, ValidBut, Apart, Seated, Joined, Arrived;
      after := before;
      NoneJoined(before, arrivals);
      for i := 0 to |arrivals|
        invariant Valid() && fresh(Repr - old(Repr))
        invariant Seated(after) && Joined(before, arrivals[..i], after)
        invariant old(ever) <= ever && Outside(after, |before|, old(ever))
      {
        match arrivals[i]
        case NoArrival =>
          NotJoined(before, arrivals, i, after);
        case Arrival(incoming, recvs, sends, configured) =>
          if configured {
            ghost var now, seat := Join(incoming, recvs, sends, after);
            OneJoined(before, arrivals, i, after, seat);
            after := now;
          } else {
            NotJoined(before, arrivals, i, after);
          }
      }
      assert arrivals[..|arrivals|] == arrivals;
    }

    method Join(incoming: string, recvs: seq<Event>, sends: seq<Event>, ghost before: seq<Seat>)
      returns (ghost after: seq<Seat>, ghost seat: Seat)
      requires Valid() && Seated(before)
      modifies this`clients, this`ever, this`Repr
      ensures Valid() && fresh(Repr - old(Repr))
      ensures after == before + [seat] && Seated(after) && old(ever) <= ever
      ensures seat.client !in old(ever) && forall configured :: Arrived(seat, Arrival(incoming, recvs, sends, configured))
    {
      hide FastMap.Valid, Bounded, StateOf, Recorded, Project;
      hide ClientConnection.Wired, ClientConnection.Answered, ClientConnection.Open, ClientConnection.Snap;
      var socket := new Socket(incoming, recvs, sends);
      var client := new ClientConnection(socket);
      ProjectNew(store.rule, calls, log, ever, client);
      clients := clients + [client];
      ever := ever + {client};
      Repr := Repr + client.Repr;
      seat := Seat(client, Snapshot("", incoming, recvs, false, "", "", sends));
      after := before + [seat];
    }

    /** poll reports what was asked for, and errors. */
    method Poll(wanted: seq<Revents>, ghost seats: seq<Seat>) returns (revents: seq<Revents>)
      requires Valid() && Seated(seats)
      ensures revents == Polled(seats, wanted)
    {
      hide Valid, ValidBut, Apart;
      revents := [];
      for i := 0 to |clients|
        invariant |revents| == i <= |clients| == |seats|
        invariant forall j :: 0 <= j < i ==> revents[j] == Polled(seats, wanted)[j]
      {
        var events := if i < |wanted| then wanted[i] else Nothing;
        revents := revents + [Mask(clients[i].writer.pending, events)];
      }
    }

    /** The loop of `run`: poll, serve, accept.  `rounds` is what poll and accept come up with; `history` is
        what then happened, and `last` who is there in the end.  If the process is lost, it is in the round
        after that history, and `turns` are the turns of that round. */
    method Run(rounds: seq<Round>, ghost first: seq<Seat>)
      returns (crashed: bool, ghost history: seq<Turnover>, ghost last: seq<Seat>, ghost turns: seq<Option<Call>>)
      requires Valid() && Seated(first)
      modifies this, store.Repr, Repr
      ensures |history| <= |rounds| && Chained(history, rounds, first, last)
      ensures calls == old(calls) + AllCalls(history) + CallsOf(turns)
      ensures !crashed ==> |history| == |rounds| && turns == [] && Valid() && Seated(last)
      ensures crashed ==>
                && |history| < |rounds| && Ruined()
                && Stopped(last, Polled(last, rounds[|history|].revents), turns)
    {
      hide Valid, ValidBut, Apart, Seated, Ruined, Chained, Happened, Turned, Left, Joined, Polled, CallsOf, AllCalls, Stopped;
      hide Distinct, Strangers, Outside;
      history, last, turns := [], first, [];
      ChainStart(rounds, first);
      for i := 0 to |rounds|
        invariant Valid() && Seated(last)
        invariant fresh(store.Repr - old(store.Repr)) && fresh(Repr - old(Repr))
        invariant |history| == i && Chained(history, rounds, first, last)
        invariant calls == old(calls) + AllCalls(history) && turns == []
      {
        var revents := Poll(rounds[i].revents, last);
        PolledRequested(last, rounds[i].revents);
        SeatedKnown(last);
        ghost var known := ever;
        crashed, turns := HandleEvents(revents, last);
        if crashed {
          return;
        }
        ghost var after := AcceptClients(rounds[i].arrivals, Left(last, turns));
        ghost var t := Turnover(last, turns, after);
        Unknown(after, |Left(last, turns)|, known, last);
        Happens(t, rounds[i]);
        ChainGrows(history, rounds, first, t);
        history, last, turns := history + [t], after, [];
      }
      NoCalls();
      crashed := false;
    }

    /** At every moment, for every client ever accepted: the bytes sent to it parse to a prefix of the
        replies to its own requests, which are the first requests of its stream, in order; at most the
        last reply is not sent completely.  The store is the log replayed on the plain map. */
    lemma SentInOrder(c: ClientConnection)
      requires Valid() && c in ever
      ensures var t := Project(log, c);
              && AllFit(Replies(t))
              && c.socket.sent <= Frames(Replies(t))
              && ParseAll(c.socket.sent).messages <= Replies(t)
              && (t != [] ==> Frames(Replies(t)[..|t| - 1]) <= c.socket.sent)
              && Requests(t) <= ParseAll(c.stream).messages
      ensures log == LogOf(calls) && Faithful(store.rule, log) && store.contents == StateOf(log)
    {
      hide Frames, Frame, Parse, ParseAll, FastMap.Valid, Execute, StateOf, Faithful, Project, Proper;
      var replies := Replies(Project(log, c));
      assert c.Wired() && c.Answered();
      assert c.socket.sent <= Frames(replies);
      BlockingMessages.ParseFramesPrefix(replies, c.socket.sent);
      if !c.writer.pending && replies != [] {
        assert c.socket.sent + "" == c.socket.sent;
        FramesLast(replies);
      }
    }
  }

  lemma FramesLast(messages: seq<string>)
    requires AllFit(messages) && messages != []
    ensures Frames(messages[..|messages| - 1]) <= Frames(messages)
  {
  }
}
