/** One client of the server: `ClientConnection` and what the poll loop does with it
    (server/src/server.cpp:150-195). */
module Connections {
  import opened Wrappers
  import opened Framing
  import opened Sockets
  import opened Messages
  import opened FastMaps
  import opened Executor
  import ArenaImage
  import Tokenizer

  /** A completed request and the reply that was queued for it. */
  datatype Exchange = Exchange(request: string, reply: string)

  function Requests(t: seq<Exchange>): seq<string> {
    seq(|t|, i requires 0 <= i < |t| => t[i].request)
  }

  function Replies(t: seq<Exchange>): seq<string> {
    seq(|t|, i requires 0 <= i < |t| => t[i].reply)
  }

  /** The events that poll reports for a descriptor. */
  datatype Revents = Revents(input: bool, output: bool, err: bool, hup: bool, nval: bool) {
    predicate Any() { input || output || err || hup || nval }
    predicate Lost() { err || hup || nval }
  }

  /** What becomes of a client: it stays, it is dropped, or the whole process is lost to the
      overwrite of a value by a shorter one. */
  datatype Outcome = Keep | Drop | Crash

  /** What there is to see of a connection at one moment. */
  datatype Snapshot = Snapshot(partial: string, incoming: string, recvs: seq<Event>,
                               pending: bool, left: string, sent: string, sends: seq<Event>) {
    function Input(): string { partial + incoming }
    function WithInput(other: Snapshot): Snapshot {
      this.(partial := other.partial, incoming := other.incoming, recvs := other.recvs)
    }
  }

  /** One attempt at a message: its outcome is what the stream starts with, and the schedule is read
      as far as it is needed. */
  predicate Took(before: Snapshot, r: ReadResult, after: Snapshot) {
    && Reads(before.Input(), r, after.incoming)
    && (r.Message? ==> after.partial == "")
    && (r.Incomplete? ==> after.Input() == before.Input() && Partial(after.partial))
    && Scheduled(r, before.recvs, after.recvs)
    && Moves(before.recvs) + |after.incoming| <= Moves(after.recvs) + |before.incoming| + EofMoves(r)
  }

  /** One attempt at the pending reply: bytes only move from what is left to what is sent. */
  predicate Gave(before: Snapshot, r: WriteResult, after: Snapshot) {
    && before.sent <= after.sent && after.sent + after.left == before.sent + before.left
    && (r.Written? ==> !after.pending && after.left == "")
    && (r.Blocked? ==> after.pending && after.left != "")
    && Sending(r, before.sends, after.sends)
    && Moves(before.sends) + |before.sent| <= Moves(after.sends) + |after.sent|
  }

  /** The reply of the entry is pending now, and nothing else is different. */
  predicate Queued(before: Snapshot, entry: Option<Exchange>, after: Snapshot) {
    match entry
    case None => after == before
    case Some(e) => |e.reply| <= MAX_MESSAGE_SIZE && after == before.(pending := true, left := Frame(e.reply))
  }

  /** One call of `handle_client_events`: what it read, wrote and answered, and what became of the client. */
  datatype Call = Call(client: ClientConnection, events: Revents, before: Snapshot,
                       read: Option<ReadResult>, written: Option<WriteResult>, entry: Option<Exchange>,
                       outcome: Outcome, after: Snapshot)

  /** A read that the client survives: nothing yet, or a request that has a reply. */
  predicate Goes(r: ReadResult) {
    r.Incomplete? || (r.Message? && !HasNoReply(r.text))
  }

  /** What every call does. */
  predicate Proper(c: Call) {
    && Requested(c.before.pending, c.events)
    && (if c.events.err || c.events.nval then
          c.outcome == Drop && c.read == None && c.written == None && c.entry == None && c.after == c.before
        else
          // it reads and writes exactly what poll reported
          && (c.read.Some? <==> c.events.input)
          && (c.written.Some? <==> c.events.output)
          && (if c.read.Some? then
                && Took(c.before, c.read.value, c.after)
                && Queued(c.before.WithInput(c.after), c.entry, c.after)
              else c.entry == None && c.after == c.after.WithInput(c.before))
          && (c.written.Some? ==> Gave(c.before, c.written.value, c.after))
          && (c.read == None && c.written == None ==> c.after == c.before)
          // a request that has a reply is answered, unless the process is lost
          && (c.entry.Some? ==> c.read == Some(Message(c.entry.value.request)))
          && (c.outcome == Crash ==> c.read.Some? && c.read.value.Message? && c.entry == None)
          && (c.outcome != Crash && c.read.Some? && c.read.value.Message? ==> (c.entry.Some? <==> Goes(c.read.value)))
          // the client stays unless it is lost, has ended, or has nothing more to say
          && (c.outcome != Crash ==>
                (c.outcome == Keep <==>
                   && !c.events.hup
                   && (c.read.Some? ==> Goes(c.read.value))
                   && (c.written.Some? ==> !c.written.value.WriteFailed?))))
  }

  /** The request that was read shortens a stored value, which the code as written does not survive. */
  predicate Ruinous(rule: ArenaImage.TailRule, m: map<string, string>, read: Option<ReadResult>) {
    rule.AsWritten? && read.Some? && read.value.Message? && Shortens(m, read.value.text)
  }

  lemma TranscriptGrows(t: seq<Exchange>, e: Exchange)
    requires AllFit(Replies(t)) && |e.reply| <= MAX_MESSAGE_SIZE
    ensures Requests(t + [e]) == Requests(t) + [e.request]
    ensures Replies(t + [e]) == Replies(t) + [e.reply]
    ensures AllFit(Replies(t + [e]))
    ensures Frames(Replies(t + [e])) == Frames(Replies(t)) + Frame(e.reply)
  {
    assert Requests(t + [e]) == Requests(t) + [e.request];
    assert Replies(t + [e]) == Replies(t) + [e.reply];
    assert (Replies(t) + [e.reply])[..|t|] == Replies(t);
  }

  lemma NoFrames()
    ensures Frames([]) == ""
  {
  }

  class ClientConnection {
    const socket: Socket
    const reader: MessageReader
    const writer: MessageWriter
    var closeAfterWrite: bool

    ghost const stream: string              // all that the peer sends before it closes
    ghost const Repr: set<object>
    ghost var transcript: seq<Exchange>

    ghost predicate Wired()
      reads this, Repr
    {
      && Repr == {this, socket, reader, reader.header, writer, writer.header}
      && reader.header != writer.header
      && reader.Valid() && writer.Valid()
    }

    /** What has been sent and what is about to be sent are the framed replies to completed
        requests, in order, and only the last reply can be outstanding. */
    ghost predicate Answered()
      requires Wired()
      reads this, Repr
    {
      var replies := Replies(transcript);
      && AllFit(replies)
      && socket.sent + writer.Remaining() == Frames(replies)
      && (writer.pending ==> replies != [] && Frames(replies[..|replies| - 1]) <= socket.sent)
      && Requests(transcript) <= ParseAll(stream).messages
    }

    /** The client is still served: its requests so far, and those still in the stream, are the whole stream. */
    ghost predicate Open()
      requires Wired()
      reads this, Repr
    {
      var left := ParseAll(reader.Pending() + socket.incoming);
      && !closeAfterWrite
      && ParseAll(stream) == Transcript(Requests(transcript) + left.messages, left.end)
    }

    ghost function Snap(): Snapshot
      requires Wired()
      reads this, Repr
    {
      Snapshot(reader.Pending(), socket.incoming, socket.recvs, writer.pending, writer.Remaining(), socket.sent, socket.sends)
    }

    lemma Polling(events: Revents)
      requires Wired() && Requested(Snap().pending, events)
      ensures Asked(events)
    {
    }

    lemma Reading()
      requires Wired() && Open()
      ensures var left := ParseAll(Snap().Input());
              ParseAll(stream) == Transcript(Requests(transcript) + left.messages, left.end)
    {
    }

    constructor (socket: Socket)
      requires socket.sent == ""
      ensures Wired() && Answered() && Open()
      ensures Repr == {this, socket, reader, reader.header, writer, writer.header} && fresh(Repr - {socket})
      ensures this.socket == socket && transcript == [] && stream == socket.incoming
      ensures Snap() == Snapshot("", socket.incoming, socket.recvs, false, "", "", socket.sends)
    {
      hide Frames, ParseAll;
      this.socket := socket;
      var r := new MessageReader();
      var w := new MessageWriter();
      reader, writer := r, w;
      closeAfterWrite := false;
      stream := socket.incoming;
      transcript := [];
      Repr := {this, socket, r, r.header, w, w.header};
      new;
      assert reader.Pending() + socket.incoming == stream;
      assert Replies([]) == [] && Requests([]) == [];
      NoFrames();
      assert [] + ParseAll(stream).messages == ParseAll(stream).messages;
    }

    /** The request is executed and its reply is queued. */
    method Respond(text: string, store: FastMap) returns (o: Outcome, ghost entry: Option<Exchange>)
      requires Wired() && Answered() && !writer.pending && !closeAfterWrite
      requires |text| <= MAX_MESSAGE_SIZE && reader.Pending() == ""
      requires var left := ParseAll(socket.incoming);
               ParseAll(stream) == Transcript(Requests(transcript) + [text] + left.messages, left.end)
      requires store.Valid() && store.capacity >= 4 && Bounded(store.contents) && store.Repr !! Repr
      modifies this, writer, writer.header, store.Repr
      ensures Wired() && Answered() && Queued(old(Snap()), entry, Snap())
      ensures transcript == old(transcript) + Entries(entry)
      ensures o == Crash <==> store.rule.AsWritten? && Shortens(old(store.contents), text)
      ensures o != Crash ==>
                && store.Valid() && store.capacity >= 4 && Bounded(store.contents)
                && fresh(store.Repr - old(store.Repr))
                && Executed(old(store.contents), entry, store.contents)
                && (o == Drop <==> HasNoReply(text))
      ensures o == Keep ==> Open()
      ensures o == Keep <==> entry.Some?
      ensures entry.Some? ==> entry.value.request == text
    {
      hide Frames, Frame, Parse, ParseAll, FastMap.Valid, Bounded, Execute, Shortens;
      ghost var m := store.contents;
      assert transcript + [] == transcript;
      var result := RunCommand(store, text);
      if result.None? {
        return Crash, None;
      }
      ExecuteBounded(m, text);
      OnlyExitStops(m, text);
      ReplyFits(m, text);
      RejectedKeeps(m, text);
      if result.value.stop && result.value.output == "" {
        return Drop, None;
      }
      var queued := Enqueue(text, result.value.output, result.value.stop);
      if !queued {
        UnknownKeeps(m, text);
        return Drop, None;
      }
      return Keep, Some(Exchange(text, result.value.output));
    }

    method Enqueue(request: string, reply: string, stop: bool) returns (queued: bool)
      requires Wired() && Answered() && !writer.pending && reader.Pending() == ""
      requires var left := ParseAll(socket.incoming);
               ParseAll(stream) == Transcript(Requests(transcript) + [request] + left.messages, left.end)
      modifies this, writer, writer.header
      ensures Wired() && Answered()
      ensures queued <==> |reply| <= MAX_MESSAGE_SIZE
      ensures transcript == if queued then old(transcript) + [Exchange(request, reply)] else old(transcript)
      ensures Queued(old(Snap()), if queued then Some(Exchange(request, reply)) else None, Snap())
      ensures queued && !stop ==> Open()
    {
      hide Frames, Frame, Parse, ParseAll;
      var r := writer.Queue(reply);
      if r.WriteFailed? {
        return false;
      }
      closeAfterWrite := stop;
      ghost var e := Exchange(request, reply);
      TranscriptGrows(transcript, e);
      transcript := transcript + [e];
      assert reader.Pending() + socket.incoming == socket.incoming;
      return true;
    }

    /** POLLIN: one attempt at a message, and the reply if it is complete. */
    method Receive(store: FastMap) returns (o: Outcome, ghost entry: Option<Exchange>, ghost read: ReadResult)
      requires Wired() && Answered() && Open() && !writer.pending
      requires store.Valid() && store.capacity >= 4 && Bounded(store.contents) && store.Repr !! Repr
      modifies Repr, store.Repr
      ensures Wired() && Answered()
      ensures Took(old(Snap()), read, Snap()) && Queued(old(Snap()).WithInput(Snap()), entry, Snap())
      ensures transcript == old(transcript) + Entries(entry)
      ensures o == Crash <==> Ruinous(store.rule, old(store.contents), Some(read))
      ensures o != Crash ==>
                && store.Valid() && store.capacity >= 4 && Bounded(store.contents)
                && fresh(store.Repr - old(store.Repr))
                && Executed(old(store.contents), entry, store.contents)
                && (o == Keep <==> Goes(read))
      ensures o == Keep ==> Open()
      ensures entry.Some? <==> o == Keep && read.Message?
      ensures entry.Some? ==> entry.value.request == read.text
    {
      hide Frames, Frame, Parse, ParseAll, FastMap.Valid, Bounded, Execute, Shortens, HasNoReply, Scheduled, Moves;
      entry := None;
      assert transcript + [] == transcript;
      ghost var (whole, before) := (reader.Pending() + socket.incoming, Snap());
      var result := reader.ReadFrom(socket);
      read := result;
      assert Took(before, read, Snap()) && Snap() == before.WithInput(Snap());
      match result {
        case ReadFailed(_) => return Drop, None, read;
        case PeerClosed => return Drop, None, read;
        case Incomplete => return Keep, None, read;
        case Message(text) =>
          MessageParsed(whole, text, socket.incoming);
          assert Requests(transcript) + ([text] + ParseAll(socket.incoming).messages)
              == Requests(transcript) + [text] + ParseAll(socket.incoming).messages;
          ghost var mid := Snap();
          o, entry := Respond(text, store);
          StillTook(before, read, mid, entry, Snap());
      }
    }

    ghost predicate Asked(events: Revents)
      requires Wired()
      reads this, Repr
    {
      Requested(writer.pending, events)
    }

    /** POLLOUT: more of the pending reply. */
    method Transmit() returns (o: Outcome, ghost written: WriteResult)
      requires Wired() && Answered() && Open()
      modifies writer, writer.header, socket`sent, socket`sends
      ensures Wired() && Answered() && Open()
      ensures Gave(old(Snap()), written, Snap()) && Snap() == Snap().WithInput(old(Snap()))
      ensures o == if written.WriteFailed? then Drop else Keep
    {
      hide Frames, ParseAll, Sending, Moves;
      ghost var before := reader.Pending();
      var result := writer.WriteTo(socket);
      written := result;
      assert reader.Pending() == before;
      if result.WriteFailed? {
        return Drop, written;
      }
      return if result.Written? && closeAfterWrite then Drop else Keep, written;
    }

    /** `handle_client_events`. */
    method Handle(events: Revents, store: FastMap) returns (o: Outcome, ghost call: Call)
      requires Wired() && Answered() && Open() && Asked(events)
      requires store.Valid() && store.capacity >= 4 && Bounded(store.contents) && store.Repr !! Repr
      modifies Repr, store.Repr
      ensures Wired() && Answered()
      ensures call.client == this && call.events == events && call.outcome == o
      ensures call.before == old(Snap()) && call.after == Snap() && Proper(call)
      ensures transcript == old(transcript) + Entries(call.entry)
      ensures o == Crash <==> Ruinous(store.rule, old(store.contents), call.read)
      ensures o != Crash ==>
                && store.Valid() && store.capacity >= 4 && Bounded(store.contents)
                && fresh(store.Repr - old(store.Repr))
                && Executed(old(store.contents), call.entry, store.contents)
      ensures o == Keep ==> Open() && !events.Lost()
    {
      hide Frames, Frame, Parse, ParseAll, FastMap.Valid, Bounded, Execute, Took, Gave, Queued, Goes, Shortens;
      assert transcript + [] == transcript;
      ghost var before := Snap();
      if events.err || events.nval {
        call := Call(this, events, before, None, None, None, Drop, before);
        return Drop, call;
      }
      ghost var read, written, entry := None, None, None;
      if events.input {
        ghost var r;
        o, entry, r := Receive(store);
        read := Some(r);
        if o != Keep {
          call := Call(this, events, before, read, None, entry, o, Snap());
          return;
        }
      }
      if events.output {
        ghost var w;
        o, w := Transmit();
        written := Some(w);
        if o != Keep {
          call := Call(this, events, before, read, written, entry, o, Snap());
          return;
        }
      }
      o := if events.hup then Drop else Keep;
      call := Call(this, events, before, read, written, entry, o, Snap());
    }
  }

  /** The events that the server asked for: to write while a reply is pending, to read otherwise. */
  predicate Requested(pending: bool, events: Revents) {
    if pending then !events.input else !events.output
  }

  function Entries(entry: Option<Exchange>): seq<Exchange> {
    if entry.Some? then [entry.value] else []
  }

  /** A completed request has been executed on the plain map; nothing else changes it. */
  predicate Executed(m: map<string, string>, entry: Option<Exchange>, m': map<string, string>) {
    match entry
    case Some(e) => (e.reply, m') == (Execute(m, e.request).0.output, Execute(m, e.request).1)
    case None => m' == m
  }

  /** The result of the request stops the connection without a word, or does not fit in a message. */
  predicate Silent(m: map<string, string>, request: string) {
    var r := Execute(m, request).0;
    (r.stop && r.output == "") || |r.output| > MAX_MESSAGE_SIZE
  }

  /** Which requests have no reply does not depend on what is stored. */
  lemma NoReplyIffSilent(m: map<string, string>, request: string)
    requires Bounded(m) && |request| <= MAX_MESSAGE_SIZE
    ensures HasNoReply(request) <==> Silent(m, request)
  {
    hide Execute;
    OnlyExitStops(m, request);
    ReplyFits(m, request);
  }

  /** A request that is there is answered by the call that reads, if the schedule is smooth and long enough;
      one whose result is silent ends the connection. */
  lemma RequestAnswered(c: Call, m: map<string, string>, request: string, rest: string)
    requires Proper(c) && c.events.input && !c.events.err && !c.events.nval && c.outcome != Crash
    requires Parse(c.before.Input()) == Complete(request, rest) && Bounded(m)
    requires AllSmooth(c.before.recvs) && |c.before.partial| + Moves(c.before.recvs) >= HEADER_SIZE + |request|
    ensures c.after.incoming == rest
    ensures if Silent(m, request) then c.outcome == Drop && c.entry == None
            else
              && c.entry.Some? && c.entry.value.request == request
              && c.after.pending && c.after.left == HeaderOf(|c.entry.value.reply|) + c.entry.value.reply
              && (!c.events.hup ==> c.outcome == Keep)
  {
    hide HasNoReply, Silent, Bounded, Moves;
    RequestFits(c.before.Input(), request, rest);
    NoReplyIffSilent(m, request);
    TailKeeps(c.before.recvs, c.after.recvs);
    NoMoves();
  }

  lemma RequestFits(whole: string, request: string, rest: string)
    requires Parse(whole) == Complete(request, rest)
    ensures |request| <= MAX_MESSAGE_SIZE
  {
  }

  /** So is a pending reply sent by the call that writes. */
  lemma ReplySent(c: Call)
    requires Proper(c) && c.events.output && !c.events.err && !c.events.nval
    requires AllSmooth(c.before.sends) && Moves(c.before.sends) >= |c.before.left|
    ensures c.written == Some(Written) && !c.after.pending
    ensures c.after.sent == c.before.sent + c.before.left
    ensures c.outcome == if c.events.hup then Drop else Keep
  {
    hide HasNoReply, Moves;
    TailKeeps(c.before.sends, c.after.sends);
    NoMoves();
    assert c.after.sent + "" == c.after.sent;
    assert c.after.sent + c.after.left == c.before.sent + c.before.left;
  }

  /** A client whose stream has ended, or does not go on as frames, is dropped by the call that sees it. */
  lemma StreamEndDrops(c: Call)
    requires Proper(c) && c.events.input && !c.events.err && !c.events.nval
    requires !Parse(c.before.Input()).Complete?
    requires AllSmooth(c.before.recvs) && Moves(c.before.recvs) > |c.before.incoming|
    ensures c.outcome == Drop && c.entry == None
  {
    hide HasNoReply, Moves, Parse;
    TailKeeps(c.before.recvs, c.after.recvs);
    NoMoves();
  }

  /** Where the schedule breaks, the client is dropped without an answer; where it would block, the client is
      kept, with all bytes. */
  lemma ScheduleDecides(c: Call)
    requires Proper(c) && !c.events.err && !c.events.hup && !c.events.nval
    ensures c.events.input && Broke(c.before.recvs, c.after.recvs) ==> c.outcome == Drop && c.entry == None
    ensures c.events.output && Broke(c.before.sends, c.after.sends) ==> c.outcome == Drop
    ensures c.events.input && Met(c.before.recvs, c.after.recvs, Fail(WouldBlock)) ==>
              c.outcome == Keep && c.entry == None && c.after.Input() == c.before.Input()
    ensures c.events.output && Met(c.before.sends, c.after.sends, Fail(WouldBlock)) ==>
              c.outcome == Keep && c.after.sent + c.after.left == c.before.sent + c.before.left
  {
    hide HasNoReply, Moves, Reads, Partial, Queued;
  }

  /** Queueing the reply leaves the input side alone. */
  lemma StillTook(before: Snapshot, r: ReadResult, mid: Snapshot, entry: Option<Exchange>, after: Snapshot)
    requires Took(before, r, mid) && mid == before.WithInput(mid) && Queued(mid, entry, after)
    ensures Took(before, r, after) && Queued(before.WithInput(after), entry, after)
  {
  }

  /** The request asks to exit, or names a command too long to be quoted in the reply. */
  predicate HasNoReply(request: string) {
    var words := Tokenizer.Tokens(request);
    words == ["exit"] || (words != [] && RequiredArgs(words[0]) == None && |words[0]| + 18 > MAX_MESSAGE_SIZE)
  }

  lemma UnknownKeeps(m: map<string, string>, text: string)
    ensures HasNoReply(text) ==> Execute(m, text).1 == m
  {
  }

  lemma MessageParsed(whole: string, text: string, rest: string)
    requires Parse(whole) == Complete(text, rest)
    ensures |text| <= MAX_MESSAGE_SIZE
    ensures ParseAll(whole) == Transcript([text] + ParseAll(rest).messages, ParseAll(rest).end)
  {
  }
}
