/** What one round of the server's loop does for its clients (server/src/server.cpp:65-107), from what poll
    reports, what the streams hold and what the schedules allow. */
module Rounds {
  import opened Wrappers
  import opened Framing
  import opened Sockets
  import opened Messages
  import opened Executor
  import opened Connections
  import opened Servers

  /** Client `i` of the round, as the round found it. */
  predicate Polls(t: Turnover, r: Round, i: nat) {
    i < |t.before| && i < |r.revents|
  }

  /** The client has no seat after the round. */
  ghost predicate Gone(t: Turnover, c: ClientConnection) {
    forall s :: s in t.after ==> s.client != c
  }

  // ----- seats

  lemma {:induction false} LeftHas(seats: seq<Seat>, turns: seq<Option<Call>>, i: nat)
    requires |seats| == |turns| && i < |seats| && Stays(turns[i])
    ensures (if turns[i].Some? then seats[i].(look := turns[i].value.after) else seats[i]) in Left(seats, turns)
    decreases |seats|
  {
    if i > 0 {
      LeftHas(seats[1..], turns[1..], i - 1);
    }
  }

  /** Whose seat is left had a seat, and stays. */
  lemma {:induction false} LeftFrom(seats: seq<Seat>, turns: seq<Option<Call>>, s: Seat) returns (j: nat)
    requires |seats| == |turns| && s in Left(seats, turns)
    ensures j < |seats| && s.client == seats[j].client && Stays(turns[j])
    decreases |seats|
  {
    var head := if turns[0].Some? then seats[0].(look := turns[0].value.after) else seats[0];
    if Stays(turns[0]) && s == head {
      j := 0;
    } else {
      assert s in Left(seats[1..], turns[1..]);
      j := LeftFrom(seats[1..], turns[1..], s);
      j := j + 1;
    }
  }

  /** Who stays has a seat after the round, as the turn left it. */
  lemma StaysSeated(t: Turnover, r: Round, i: nat)
    requires Happened(t, r) && i < |t.before| && Stays(t.turns[i])
    ensures (if t.turns[i].Some? then t.before[i].(look := t.turns[i].value.after) else t.before[i]) in t.after
  {
    hide Turned, Distinct, Strangers;
    LeftHas(t.before, t.turns, i);
    var left := Left(t.before, t.turns);
    assert forall s :: s in t.after[..|left|] ==> s in t.after;
  }

  /** Who does not stay has none. */
  lemma DroppedGone(t: Turnover, r: Round, i: nat)
    requires Happened(t, r) && i < |t.before| && !Stays(t.turns[i])
    ensures Gone(t, t.before[i].client)
  {
    hide Turned;
    var left := Left(t.before, t.turns);
    forall s | s in t.after ensures s.client != t.before[i].client {
      var k :| 0 <= k < |t.after| && t.after[k] == s;
      if k < |left| {
        assert s == t.after[..|left|][k];
        var j := LeftFrom(t.before, t.turns, s);
      }
    }
  }

  // ----- turns

  /** A client has a turn exactly when poll reports an error, or the one kind of event that it is asked for: output
      while a reply is pending, and input otherwise; and the turn is for what was reported. */
  lemma TurnOf(t: Turnover, r: Round, i: nat)
    requires Happened(t, r) && Polls(t, r, i)
    ensures |t.turns| == |t.before|
    ensures var (look, e, turn) := (t.before[i].look, r.revents[i], t.turns[i]);
            && (turn.Some? <==> e.err || e.hup || e.nval || (if look.pending then e.output else e.input))
            && (turn.Some? ==>
                  && Proper(turn.value) && turn.value.outcome != Crash
                  && turn.value.client == t.before[i].client && turn.value.before == look
                  && var events := turn.value.events;
                     && (events.input <==> e.input && !look.pending)
                     && (events.output <==> e.output && look.pending)
                     && events.err == e.err && events.hup == e.hup && events.nval == e.nval)
  {
    hide Proper, Joined, Distinct, Strangers, Left;
    assert Called(t.before[0 + i], Polled(t.before, r.revents)[0 + i], t.turns[i]);
  }

  // ----- what a round does

  /** A client that is polled for reading, and whose stream holds a whole request, has it answered in that round
      if its schedule is smooth and long enough; unless it hangs up, it is there with the reply pending.  If the
      result of the request is silent, it is gone. */
  lemma RoundAnswers(t: Turnover, r: Round, i: nat, m: map<string, string>, request: string, rest: string)
    requires Happened(t, r) && Polls(t, r, i)
    requires r.revents[i].input && !r.revents[i].err && !r.revents[i].nval
    requires var look := t.before[i].look;
             && !look.pending && Parse(look.Input()) == Complete(request, rest) && Bounded(m)
             && AllSmooth(look.recvs) && |look.partial| + Moves(look.recvs) >= HEADER_SIZE + |request|
    ensures t.turns[i].Some?
    ensures if Silent(m, request) then t.turns[i].value.entry == None && Gone(t, t.before[i].client)
            else
              && t.turns[i].value.entry.Some? && t.turns[i].value.entry.value.request == request
              && var (look, reply) := (t.turns[i].value.after, t.turns[i].value.entry.value.reply);
                 && look.pending && look.incoming == rest && look.left == HeaderOf(|reply|) + reply
                 && if r.revents[i].hup then Gone(t, t.before[i].client) else t.before[i].(look := look) in t.after
  {
    hide Proper, Silent, Happened, Gone, Parse, Moves, AllSmooth;
    TurnOf(t, r, i);
    var call := t.turns[i].value;
    RequestAnswered(call, m, request, rest);
    if Silent(m, request) {
      DroppedGone(t, r, i);
    } else if r.revents[i].hup {
      HupDrops(call);
      DroppedGone(t, r, i);
    } else {
      StaysSeated(t, r, i);
    }
  }

  /** A client with a pending reply that is polled for writing has all of it sent in that round if its schedule is
      smooth and long enough; unless it hangs up, it is there with nothing pending. */
  lemma RoundSends(t: Turnover, r: Round, i: nat)
    requires Happened(t, r) && Polls(t, r, i)
    requires r.revents[i].output && !r.revents[i].err && !r.revents[i].nval
    requires var look := t.before[i].look;
             look.pending && AllSmooth(look.sends) && Moves(look.sends) >= |look.left|
    ensures t.turns[i].Some?
    ensures var (look, after) := (t.before[i].look, t.turns[i].value.after);
            && after.sent == look.sent + look.left && !after.pending
            && if r.revents[i].hup then Gone(t, t.before[i].client) else t.before[i].(look := after) in t.after
  {
    hide Proper, Happened, Gone, Moves, AllSmooth;
    TurnOf(t, r, i);
    ReplySent(t.turns[i].value);
    if r.revents[i].hup {
      DroppedGone(t, r, i);
    } else {
      StaysSeated(t, r, i);
    }
  }

  /** A client with an error, or that has hung up, is gone after the round; with an error nothing is read or sent. */
  lemma RoundDrops(t: Turnover, r: Round, i: nat)
    requires Happened(t, r) && Polls(t, r, i)
    requires r.revents[i].err || r.revents[i].hup || r.revents[i].nval
    ensures t.turns[i].Some? && Gone(t, t.before[i].client)
    ensures r.revents[i].err || r.revents[i].nval ==>
              t.turns[i].value.entry == None && t.turns[i].value.after == t.before[i].look
  {
    hide Happened, Gone, Took, Gave, Queued;
    TurnOf(t, r, i);
    DroppedGone(t, r, i);
  }

  lemma HupDrops(c: Call)
    requires Proper(c) && c.events.hup && c.outcome != Crash
    ensures c.outcome == Drop
  {
  }

  /** A client that nothing it waits for is reported for keeps its seat as it is. */
  lemma RoundIdle(t: Turnover, r: Round, i: nat)
    requires Happened(t, r) && i < |t.before|
    requires i < |r.revents| ==>
               var e := r.revents[i];
               !e.err && !e.hup && !e.nval && if t.before[i].look.pending then !e.output else !e.input
    ensures t.turns[i] == None && t.before[i] in t.after
  {
    hide Happened;
    if i < |r.revents| {
      TurnOf(t, r, i);
    } else {
      NothingReported(t, r, i);
    }
    StaysSeated(t, r, i);
  }

  lemma NothingReported(t: Turnover, r: Round, i: nat)
    requires Happened(t, r) && |r.revents| <= i < |t.before|
    ensures |t.turns| == |t.before| && t.turns[i] == None
  {
    hide Proper, Joined, Distinct, Strangers, Left;
    assert Called(t.before[0 + i], Polled(t.before, r.revents)[0 + i], t.turns[i]);
  }

  lemma {:induction false} ConfiguredHas(arrivals: seq<Arrival>, a: Arrival)
    ensures a in Configured(arrivals) <==> a in arrivals && a.Arrival? && a.configured
  {
    if arrivals != [] {
      var n := |arrivals| - 1;
      assert arrivals == arrivals[..n] + [arrivals[n]];
      ConfiguredHas(arrivals[..n], a);
    }
  }

  /** Every configured connection has a seat after the round, with nothing read or sent; and every other seat is
      that of a client that was there before. */
  lemma RoundJoins(t: Turnover, r: Round)
    requires Happened(t, r)
    ensures forall a :: a in r.arrivals && a.Arrival? && a.configured ==> exists s :: s in t.after && Arrived(s, a)
    ensures forall s :: s in t.after ==>
              || (exists i :: 0 <= i < |t.before| && s.client == t.before[i].client)
              || (exists a :: a in r.arrivals && a.Arrival? && a.configured && Arrived(s, a))
  {
    hide Turned, Arrived, Distinct, Strangers, Left;
    var (left, joining) := (Left(t.before, t.turns), Configured(r.arrivals));
    forall a | a in r.arrivals && a.Arrival? && a.configured ensures exists s :: s in t.after && Arrived(s, a) {
      ConfiguredHas(r.arrivals, a);
      var k :| 0 <= k < |joining| && joining[k] == a;
      assert Arrived(t.after[|left| + k], a);
    }
    forall s | s in t.after
      ensures || (exists i :: 0 <= i < |t.before| && s.client == t.before[i].client)
              || (exists a :: a in r.arrivals && a.Arrival? && a.configured && Arrived(s, a))
    {
      var k :| 0 <= k < |t.after| && t.after[k] == s;
      if k < |left| {
        assert s == t.after[..|left|][k];
        var j := LeftFrom(t.before, t.turns, s);
        assert s.client == t.before[j].client;
      } else {
        ConfiguredHas(r.arrivals, joining[k - |left|]);
        assert Arrived(t.after[|left| + (k - |left|)], joining[k - |left|]);
      }
    }
  }
}
