/** `read_message` and `write_message` (lib/src/message.cpp), which wait for a whole frame,
    and what they have in common with the resumable reader and writer. */
module BlockingMessages {
  import opened Wrappers
  import opened Framing
  import opened Sockets
  import opened Messages

  datatype ExactResult =
    | Filled(bytes: string)
    | NothingRead
    | ExactFailed(kind: IoErrorKind)

  method ReadExact(socket: Socket, size: nat) returns (r: ExactResult)
    requires size > 0
    modifies socket`incoming, socket`recvs, socket`taken
    ensures r.Filled? ==> |r.bytes| == size && old(socket.incoming) == r.bytes + socket.incoming
    ensures r.NothingRead? ==> old(socket.incoming) == ""
    ensures r == ExactFailed(UnexpectedEof) ==> 0 < |old(socket.incoming)| < size
    ensures r.ExactFailed? ==> r.kind == System || r.kind == UnexpectedEof
    ensures r == ExactFailed(System) ==>
              GivesUp(old(socket.recvs), socket.recvs) && |old(socket.incoming)| - |socket.incoming| < size
    ensures r != ExactFailed(System) ==> Runs(old(socket.recvs), socket.recvs)
    ensures r.Filled? || r == ExactFailed(System) ==>
              Moves(old(socket.recvs)) + |socket.incoming| <= Moves(socket.recvs) + |old(socket.incoming)|
  {
    hide Runs, Waits, Broke, Moves;
    NoEvents(socket.recvs);
    var destination := "";
    while |destination| < size
      invariant |destination| <= size
      invariant old(socket.incoming) == destination + socket.incoming
      invariant Runs(old(socket.recvs), socket.recvs)
      invariant Moves(old(socket.recvs)) + |socket.incoming| <= Moves(socket.recvs) + |old(socket.incoming)|
      decreases |socket.recvs|, size - |destination|
    {
      RunsStep(old(socket.recvs), socket.recvs);
      var result := socket.Recv(size - |destination|);
      match result
      case Received(bytes) =>
        destination := destination + bytes;
      case EndOfFile =>
        if destination == "" {
          return NothingRead;
        }
        return ExactFailed(UnexpectedEof);
      case RecvFailed(errno) =>
        if errno != Interrupted {
          return ExactFailed(System);
        }
    }
    return Filled(destination);
  }

  /** How many moves it takes to read what the stream starts with, one byte a move; one more shows its end. */
  function Needed(whole: string): nat {
    match Parse(whole)
    case Complete(m, _) => |Frame(m)|
    case Failed(MessageTooLarge) => HEADER_SIZE
    case _ => |whole| + 1
  }

  /** The blocking read gives the same message, end or error as the resumable reader: both are
      `Parse` of the stream.  It fails otherwise only when the schedule breaks, blocks or is too short. */
  method ReadMessage(socket: Socket) returns (r: ReadResult)
    modifies socket`incoming, socket`recvs, socket`taken
    ensures !r.Incomplete? && Reads(old(socket.incoming), r, socket.incoming)
    ensures r == ReadFailed(System) ==>
              !AllSmooth(old(socket.recvs)) || Moves(old(socket.recvs)) < Needed(old(socket.incoming))
    ensures r == ReadFailed(System) ==>
              && GivesUp(old(socket.recvs), socket.recvs)
              && Moves(old(socket.recvs)) < Moves(socket.recvs) + Needed(old(socket.incoming))
    ensures r != ReadFailed(System) ==> Runs(old(socket.recvs), socket.recvs)
  {
    hide Runs, GivesUp, Moves, AllSmooth;
    ghost var (whole, schedule) := (socket.incoming, socket.recvs);
    var header := ReadExact(socket, HEADER_SIZE);
    match header {
      case ExactFailed(kind) =>
        if kind == System {
          GivenUp(schedule, socket.recvs);
        }
        return ReadFailed(kind);
      case NothingRead => return PeerClosed;
      case Filled(bytes) =>
        assert whole[..HEADER_SIZE] == bytes;
        var size := SizeOf(bytes);
        if size > MAX_MESSAGE_SIZE {
          return ReadFailed(MessageTooLarge);
        }
        assert whole[HEADER_SIZE..] == socket.incoming;
        if size == 0 {
          return Message("");
        }
        ghost var mid := socket.recvs;
        var payload := ReadExact(socket, size);
        Tries(schedule, mid, socket.recvs);
        match payload {
          case ExactFailed(kind) =>
            if kind == System {
              GivenUp(schedule, socket.recvs);
            }
            return ReadFailed(kind);
          case NothingRead => return ReadFailed(UnexpectedEof);
          case Filled(text) =>
            assert whole == bytes + text + socket.incoming;
            return Message(text);
        }
    }
  }

  method WriteAll(socket: Socket, source: string) returns (r: WriteResult)
    modifies socket`sent, socket`sends
    ensures r.Written? ==> socket.sent == old(socket.sent) + source && Runs(old(socket.sends), socket.sends)
    ensures !r.Written? ==> r == WriteFailed(System) && socket.sent <= old(socket.sent) + source
    ensures !r.Written? ==> GivesUp(old(socket.sends), socket.sends) && |socket.sent| < |old(socket.sent)| + |source|
    ensures old(socket.sent) <= socket.sent
    ensures Moves(old(socket.sends)) + |old(socket.sent)| <= Moves(socket.sends) + |socket.sent|
  {
    hide Runs, Waits, Broke, Moves;
    NoEvents(socket.sends);
    var written := 0;
    while written < |source|
      invariant written <= |source|
      invariant socket.sent == old(socket.sent) + source[..written]
      invariant Runs(old(socket.sends), socket.sends)
      invariant Moves(old(socket.sends)) + |old(socket.sent)| <= Moves(socket.sends) + |socket.sent|
      decreases |socket.sends|, |source| - written
    {
      RunsStep(old(socket.sends), socket.sends);
      ghost var before := socket.sent;
      var rest := source[written..];
      var result := socket.Send(rest);
      match result
      case Accepted(count) =>
        assert source[..written] + rest[..count] == source[..written + count];
        written := written + count;
      case Refused =>
        return WriteFailed(System);
      case SendFailed(errno) =>
        if errno != Interrupted {
          return WriteFailed(System);
        }
    }
    assert source[..written] == source;
    return Written;
  }

  /** A whole frame; or a prefix of one and an error, when the schedule breaks, blocks or is too short. */
  method WriteMessage(socket: Socket, message: string) returns (r: WriteResult)
    modifies socket`sent, socket`sends
    ensures r == WriteFailed(MessageTooLarge) <==> |message| > MAX_MESSAGE_SIZE
    ensures r == WriteFailed(MessageTooLarge) ==> socket.sent == old(socket.sent)
    ensures r.Written? ==> |message| <= MAX_MESSAGE_SIZE && socket.sent == old(socket.sent) + Frame(message)
    ensures r == WriteFailed(System) ==>
              && |message| <= MAX_MESSAGE_SIZE && socket.sent <= old(socket.sent) + Frame(message)
              && (!AllSmooth(old(socket.sends)) || Moves(old(socket.sends)) < |Frame(message)|)
              && GivesUp(old(socket.sends), socket.sends)
              && Moves(old(socket.sends)) < Moves(socket.sends) + |Frame(message)|
    ensures r.Written? ==> Runs(old(socket.sends), socket.sends)
    ensures r.Written? || r == WriteFailed(MessageTooLarge) || r == WriteFailed(System)
  {
    hide Runs, GivesUp, Moves, AllSmooth;
    if |message| > MAX_MESSAGE_SIZE {
      return WriteFailed(MessageTooLarge);
    }
    ghost var (sent, schedule) := (socket.sent, socket.sends);
    assert forall s: string :: s + Frame(message) == (s + HeaderOf(|message|)) + message;
    r := WriteAll(socket, HeaderOf(|message|));
    if !r.Written? {
      GivenUp(schedule, socket.sends);
      return r;
    }
    ghost var mid := socket.sends;
    r := WriteAll(socket, message);
    Tries(schedule, mid, socket.sends);
    if !r.Written? {
      GivenUp(schedule, socket.sends);
    }
  }

  // ----- from writer to reader

  /** Whatever part of a stream of frames arrives, it parses to the messages it contains. */
  lemma {:induction false} ParseFramesPrefix(messages: seq<string>, p: string)
    requires AllFit(messages) && p <= Frames(messages)
    ensures ParseAll(p).messages <= messages
    ensures ParseAll(p).end == Closed || ParseAll(p).end == Failed(UnexpectedEof)
    ensures p == Frames(messages) ==> ParseAll(p) == Transcript(messages, Closed)
    decreases |messages|
  {
    hide Parse, Frame, ParseAll, SizeOf, HeaderOf;
    NothingLeft();
    if messages == [] {
      assert p == "";
    } else {
      var (m, rest) := (messages[0], messages[1..]);
      assert messages == [m] + rest;
      FramesCons(m, rest);
      if |p| < |Frame(m)| {
        assert p == Frame(m)[..|p|];
        ShortFrame(m, p);
      } else {
        var tail := p[|Frame(m)|..];
        assert p == Frame(m) + tail;
        assert tail <= Frames(rest);
        ParseAllFrame(m, tail);
        ParseFramesPrefix(rest, tail);
      }
    }
  }

  lemma ShortFrame(message: string, p: string)
    requires |message| <= MAX_MESSAGE_SIZE
    requires |p| < |Frame(message)| && p == Frame(message)[..|p|]
    ensures ParseAll(p).messages == []
    ensures ParseAll(p).end == Closed || ParseAll(p).end == Failed(UnexpectedEof)
  {
    if |p| >= HEADER_SIZE {
      HeaderRoundTrip(|message|);
      assert p[..HEADER_SIZE] == HeaderOf(|message|);
    }
  }

  lemma {:induction false} FramesGrow(messages: seq<string>, n: nat)
    requires AllFit(messages) && n <= |messages|
    ensures |Frames(messages[..n])| <= |Frames(messages)|
    decreases |messages|
  {
    hide Frame;
    if n == |messages| {
      assert messages[..n] == messages;
    } else {
      var most := messages[..|messages| - 1];
      assert most[..n] == messages[..n];
      FramesGrow(most, n);
    }
  }

  lemma Held(r: WriteResult, before: seq<Event>, after: seq<Event>)
    requires Sending(r, before, after)
    ensures CanBreak(after) || r.WriteFailed? ==> CanBreak(before)
    ensures |after| <= |before|
    ensures r.Blocked? && after != [] ==> |after| < |before|
  {
    TailKeeps(before, after);
  }

  /** One message queued, and sent as far as the schedule allows. */
  method PostOne(writer: MessageWriter, socket: Socket, message: string) returns (sent: bool)
    requires writer.Valid() && !writer.pending && |message| <= MAX_MESSAGE_SIZE
    modifies writer, writer.header, socket`sent, socket`sends
    ensures writer.Valid() && socket.sent + writer.Remaining() == old(socket.sent) + Frame(message)
    ensures sent ==> !writer.pending && socket.sent == old(socket.sent) + Frame(message)
    ensures !sent ==>
              CanBreak(old(socket.sends)) || (socket.sends == [] && |socket.sent| < |old(socket.sent) + Frame(message)|)
    ensures CanBreak(socket.sends) ==> CanBreak(old(socket.sends))
    ensures Moves(old(socket.sends)) + |old(socket.sent)| <= Moves(socket.sends) + |socket.sent|
  {
    hide Frame, Moves, CanBreak, Sending, MessageWriter.Valid;
    var r := writer.Queue(message);
    ghost var goal := socket.sent + writer.Remaining();
    while true
      invariant writer.Valid() && socket.sent + writer.Remaining() == goal
      invariant CanBreak(socket.sends) ==> CanBreak(old(socket.sends))
      invariant Moves(old(socket.sends)) + |old(socket.sent)| <= Moves(socket.sends) + |socket.sent|
      decreases |socket.sends|
    {
      ghost var before := socket.sends;
      r := writer.WriteTo(socket);
      Held(r, before, socket.sends);
      if !r.Blocked? || socket.sends == [] {
        return r.Written?;
      }
    }
  }

  /** Queues and sends messages one after the other; `done` of them are sent completely. */
  method Post(writer: MessageWriter, socket: Socket, messages: seq<string>) returns (done: nat)
    requires writer.Valid() && !writer.pending && AllFit(messages)
    modifies writer, writer.header, socket`sent, socket`sends
    ensures done <= |messages| && writer.Valid()
    ensures done == |messages| ==> socket.sent == old(socket.sent) + Frames(messages)
    ensures done < |messages| ==>
              && socket.sent + writer.Remaining() == old(socket.sent) + Frames(messages[..done + 1])
              && (CanBreak(old(socket.sends)) || Moves(old(socket.sends)) < |Frames(messages)|)
  {
    hide Frame, Moves, CanBreak, MessageWriter.Valid;
    ghost var schedule := socket.sends;
    done := 0;
    while done < |messages|
      invariant done <= |messages| && writer.Valid() && !writer.pending
      invariant socket.sent == old(socket.sent) + Frames(messages[..done])
      invariant CanBreak(socket.sends) ==> CanBreak(schedule)
      invariant Moves(schedule) + |old(socket.sent)| <= Moves(socket.sends) + |socket.sent|
    {
      ghost var next := messages[..done + 1];
      assert next[..done] == messages[..done];
      assert Frames(next) == Frames(messages[..done]) + Frame(messages[done]);
      FramesGrow(messages, done + 1);
      var sent := PostOne(writer, socket, messages[done]);
      if !sent {
        NoMoves();
        return;
      }
      done := done + 1;
    }
    assert messages[..done] == messages;
  }

  /** Any messages, sent and received under any two schedules: what arrives is a prefix of what was
      queued, and all of it if neither schedule breaks and both are long enough for one byte a move. */
  method Exchange(messages: seq<string>, sends: seq<Event>, recvs: seq<Event>)
    returns (received: seq<string>, done: nat, end: ReadResult)
    requires AllFit(messages)
    ensures !CanBreak(sends) && Moves(sends) >= |Frames(messages)| ==> done == |messages|
    ensures !CanBreak(sends) && Moves(sends) >= |Frames(messages)| && !CanBreak(recvs) && Moves(recvs) > |Frames(messages)| ==>
              received == messages && end.PeerClosed?
    ensures received <= messages && done <= |messages|
    ensures done == |messages| && end.PeerClosed? ==> received == messages
    ensures end.ReadFailed? ==>
              (end.kind == System && CanBreak(recvs)) || (end.kind == UnexpectedEof && done < |messages|)
    ensures !end.Message?
  {
    hide Parse, Frame, Frames, ParseAll, Moves, CanBreak;
    var sender := new Socket("", [], sends);
    var writer := new MessageWriter();
    done := Post(writer, sender, messages);
    var stream := sender.sent;
    if done < |messages| {
      var queued := messages[..done + 1];
      assert Frames(queued) == "" + Frames(queued) == stream + writer.Remaining();
      ParseFramesPrefix(queued, stream);
    } else {
      assert stream == Frames(messages);
      ParseFramesPrefix(messages, stream);
    }
    received, end := Deliver(stream, recvs);
  }

  /** A fresh reader at the end of a stream. */
  method Deliver(stream: string, recvs: seq<Event>) returns (received: seq<string>, end: ReadResult)
    ensures received <= ParseAll(stream).messages && !end.Message?
    ensures end.PeerClosed? ==> ParseAll(stream) == Transcript(received, Closed)
    ensures end.ReadFailed? && end.kind != System ==> ParseAll(stream) == Transcript(received, Failed(end.kind))
    ensures end == ReadFailed(System) ==> CanBreak(recvs)
    ensures end.Incomplete? ==> Moves(recvs) <= |stream|
  {
    hide Parse, ParseAll, Moves, CanBreak;
    var receiver := new Socket(stream, recvs, []);
    var reader := new MessageReader();
    assert reader.Pending() + receiver.incoming == stream;
    received, end := Drain(reader, receiver);
    NoMoves();
  }
}
