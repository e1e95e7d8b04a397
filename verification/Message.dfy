/** Reading and writing frames (lib/src/message.cpp): resumable state machines over partial
    `recv` and `send`, and their blocking counterparts. */
module Messages {
  import opened Wrappers
  import opened Framing
  import opened Sockets

  datatype ReadResult =
    | Incomplete
    | PeerClosed
    | Message(text: string)
    | ReadFailed(kind: IoErrorKind)

  datatype WriteResult =
    | Written
    | Blocked
    | WriteFailed(kind: IoErrorKind)

  /** `r` is what the stream `whole` starts with, and `rest` is what follows. */
  predicate Reads(whole: string, r: ReadResult, rest: string) {
    match r
    case Message(m) => Parse(whole) == Complete(m, rest)
    case PeerClosed => Parse(whole) == Closed
    case ReadFailed(kind) => kind != System ==> Parse(whole) == Failed(kind)
    case Incomplete => true
  }

  /** What the schedule had to do with the result: it waits, it breaks, or it runs on. */
  predicate Scheduled(r: ReadResult, before: seq<Event>, after: seq<Event>) {
    match r
    case Incomplete => Waits(before, after)
    case ReadFailed(kind) => if kind == System then Broke(before, after) else Runs(before, after)
    case _ => Runs(before, after)
  }

  predicate Sending(r: WriteResult, before: seq<Event>, after: seq<Event>) {
    match r
    case Written => Runs(before, after)
    case Blocked => Waits(before, after)
    case WriteFailed(_) => Broke(before, after)
  }

  /** The one move that brings no bytes: the one that meets the end of the stream. */
  function EofMoves(r: ReadResult): nat {
    if r == PeerClosed || r == ReadFailed(UnexpectedEof) then 1 else 0
  }

  class MessageReader {
    const header: array<char>
    var headerBytes: nat
    var payload: string
    var payloadBytes: nat

    ghost predicate Valid()
      reads this, header
    {
      && header.Length == HEADER_SIZE
      && headerBytes <= HEADER_SIZE
      && payloadBytes <= |payload|
      && (payload != "" ==>
            && headerBytes == HEADER_SIZE
            && payloadBytes < |payload| == SizeOf(header[..]) <= MAX_MESSAGE_SIZE)
    }

    /** The bytes of the current frame received so far. */
    ghost function Pending(): string
      requires Valid()
      reads this, header
    {
      header[..headerBytes] + payload[..payloadBytes]
    }

    constructor ()
      ensures Valid() && fresh(header) && Pending() == ""
    {
      header := new char[HEADER_SIZE](_ => '\0');
      headerBytes := 0;
      payload := "";
      payloadBytes := 0;
    }

    method Reset()
      requires header.Length == HEADER_SIZE
      modifies this, header
      ensures Valid() && Pending() == ""
    {
      forall i | 0 <= i < HEADER_SIZE {
        header[i] := '\0';
      }
      headerBytes := 0;
      payload := "";
      payloadBytes := 0;
    }

    /** The header loop; `None` means that the header is complete. */
    method ReadHeader(socket: Socket) returns (r: Option<ReadResult>)
      requires Valid() && payload == ""
      modifies `headerBytes, header, socket`incoming, socket`recvs, socket`taken
      ensures Valid()
      ensures Pending() + socket.incoming == old(Pending() + socket.incoming)
      ensures socket.taken + socket.incoming == old(socket.taken + socket.incoming)
      ensures if r.None? then Runs(old(socket.recvs), socket.recvs) else Scheduled(r.value, old(socket.recvs), socket.recvs)
      ensures Moves(old(socket.recvs)) + |socket.incoming| <=
                Moves(socket.recvs) + |old(socket.incoming)| + (if r.Some? then EofMoves(r.value) else 0)
      ensures r.None? ==> headerBytes == HEADER_SIZE
      ensures r.Some? ==> r.value.Incomplete? || r.value.PeerClosed? || r.value.ReadFailed?
      ensures r.Some? ==> Reads(old(Pending() + socket.incoming), r.value, "")
      ensures r == Some(Incomplete) ==> headerBytes < HEADER_SIZE
    {
      hide Runs, Waits, Broke, Moves;
      NoEvents(socket.recvs);
      while headerBytes < HEADER_SIZE
        invariant Valid()
        invariant Pending() + socket.incoming == old(Pending() + socket.incoming)
        invariant socket.taken + socket.incoming == old(socket.taken + socket.incoming)
        invariant Runs(old(socket.recvs), socket.recvs)
        invariant Moves(old(socket.recvs)) + |socket.incoming| <= Moves(socket.recvs) + |old(socket.incoming)|
        decreases |socket.recvs|, HEADER_SIZE - headerBytes
      {
        RunsStep(old(socket.recvs), socket.recvs);
        var result := socket.Recv(HEADER_SIZE - headerBytes);
        match result
        case Received(bytes) =>
          CopyHeader(bytes);
        case EndOfFile =>
          if headerBytes == 0 {
            return Some(PeerClosed);
          }
          return Some(ReadFailed(UnexpectedEof));
        case RecvFailed(errno) =>
          if errno != Interrupted {
            return Some(if errno == WouldBlock then Incomplete else ReadFailed(System));
          }
      }
      return None;
    }

    /** recv's destination, `m_header.data() + m_header_bytes`. */
    method CopyHeader(bytes: string)
      requires Valid() && payload == "" && headerBytes + |bytes| <= HEADER_SIZE
      modifies `headerBytes, header
      ensures Valid() && Pending() == old(Pending()) + bytes
      ensures headerBytes == old(headerBytes) + |bytes|
    {
      forall i | 0 <= i < |bytes| {
        header[headerBytes + i] := bytes[i];
      }
      headerBytes := headerBytes + |bytes|;
    }

    /** The payload loop; `None` means that the payload is complete. */
    method ReadPayload(socket: Socket) returns (r: Option<ReadResult>)
      requires Valid() && payload != ""
      modifies `payload, `payloadBytes, socket`incoming, socket`recvs, socket`taken
      ensures header.Length == HEADER_SIZE == headerBytes && |payload| == |old(payload)|
      ensures payloadBytes <= |payload| == SizeOf(header[..])
      ensures header[..] + payload[..payloadBytes] + socket.incoming == old(Pending() + socket.incoming)
      ensures socket.taken + socket.incoming == old(socket.taken + socket.incoming)
      ensures if r.None? then Runs(old(socket.recvs), socket.recvs) else Scheduled(r.value, old(socket.recvs), socket.recvs)
      ensures Moves(old(socket.recvs)) + |socket.incoming| <=
                Moves(socket.recvs) + |old(socket.incoming)| + (if r.Some? then EofMoves(r.value) else 0)
      ensures r.None? ==> payloadBytes == |payload|
      ensures r.Some? ==> payloadBytes < |payload| && (r.value.Incomplete? || r.value.ReadFailed?)
      ensures r.Some? && r.value.ReadFailed? && r.value.kind != System ==>
                r.value.kind == UnexpectedEof && socket.incoming == ""
    {
      hide Runs, Waits, Broke, Moves;
      NoEvents(socket.recvs);
      ghost var whole := Pending() + socket.incoming;
      assert header[..headerBytes] == header[..];
      while payloadBytes < |payload|
        invariant |payload| == |old(payload)| && payloadBytes <= |payload|
        invariant header[..] + payload[..payloadBytes] + socket.incoming == whole
        invariant socket.taken + socket.incoming == old(socket.taken + socket.incoming)
        invariant Runs(old(socket.recvs), socket.recvs)
        invariant Moves(old(socket.recvs)) + |socket.incoming| <= Moves(socket.recvs) + |old(socket.incoming)|
        decreases |socket.recvs|, |payload| - payloadBytes
      {
        RunsStep(old(socket.recvs), socket.recvs);
        var result := socket.Recv(|payload| - payloadBytes);
        match result
        case Received(bytes) =>
          ghost var before := payload[..payloadBytes];
          payload := payload[..payloadBytes] + bytes + payload[payloadBytes + |bytes|..];
          payloadBytes := payloadBytes + |bytes|;
          assert payload[..payloadBytes] == before + bytes;
          assert header[..] + (before + bytes) + socket.incoming == header[..] + before + (bytes + socket.incoming);
        case EndOfFile =>
          return Some(ReadFailed(UnexpectedEof));
        case RecvFailed(errno) =>
          if errno != Interrupted {
            return Some(if errno == WouldBlock then Incomplete else ReadFailed(System));
          }
      }
      return None;
    }

    /** Continues the current frame as far as the socket allows.  The outcome depends on the bytes
        of the stream alone, never on how the schedule cuts them up. */
    method ReadFrom(socket: Socket) returns (r: ReadResult)
      requires Valid()
      modifies this, header, socket`incoming, socket`recvs, socket`taken
      ensures Valid()
      ensures Reads(old(Pending() + socket.incoming), r, socket.incoming)
      ensures r.Message? ==> Pending() == ""
      ensures r.Incomplete? || r == ReadFailed(System) ==>
                Pending() + socket.incoming == old(Pending() + socket.incoming)
      ensures r.Incomplete? ==> Partial(Pending())
      ensures socket.taken + socket.incoming == old(socket.taken + socket.incoming)
      // the schedule is read as far as it is needed, and every move but that into the end of the stream brings bytes
      ensures Scheduled(r, old(socket.recvs), socket.recvs)
      ensures Moves(old(socket.recvs)) + |socket.incoming| <= Moves(socket.recvs) + |old(socket.incoming)| + EofMoves(r)
    {
      hide Runs, Waits, Broke, Moves;
      ghost var (whole, before) := (Pending() + socket.incoming, socket.recvs);
      if payload == "" {
        var early := ReadHeader(socket);
        if early.Some? {
          return early.value;
        }
        assert header[..headerBytes] == header[..] == whole[..HEADER_SIZE];
        var size := SizeOf(header[..]);
        if size > MAX_MESSAGE_SIZE {
          return ReadFailed(MessageTooLarge);
        }
        if size == 0 {
          Reset();
          return Message("");
        }
        payload := seq(size, _ => '\0');
        assert Pending() == header[..];
      }
      assert whole[..HEADER_SIZE] == header[..headerBytes] == header[..];
      ghost var mid := socket.recvs;
      var early := ReadPayload(socket);
      RunsOn(before, mid, socket.recvs);
      assert whole[HEADER_SIZE..] == payload[..payloadBytes] + socket.incoming;
      if early.Some? {
        return early.value;
      }
      assert payload[..payloadBytes] == payload;
      var text := payload;
      Reset();
      return Message(text);
    }
  }

  lemma NotBroken(r: ReadResult, before: seq<Event>, after: seq<Event>)
    requires Scheduled(r, before, after)
    ensures CanBreak(after) || r == ReadFailed(System) ==> CanBreak(before)
    ensures |after| <= |before|
    ensures r.Incomplete? && after != [] ==> |after| < |before|
  {
    TailKeeps(before, after);
  }

  /** `messages` are the first of the transcript `t`, and the rest of it is in `left`. */
  ghost predicate ReadSoFar(t: Transcript, messages: seq<string>, left: string) {
    t == Transcript(messages + ParseAll(left).messages, ParseAll(left).end)
  }

  lemma NothingRead(s: string)
    ensures ReadSoFar(ParseAll(s), [], s)
  {
  }

  lemma ReadOne(t: Transcript, messages: seq<string>, whole: string, r: ReadResult, rest: string)
    requires ReadSoFar(t, messages, whole) && Reads(whole, r, rest)
    ensures r.Message? ==> |rest| < |whole| && ReadSoFar(t, messages + [r.text], rest)
    ensures r.PeerClosed? ==> t == Transcript(messages, Closed)
    ensures r.ReadFailed? && r.kind != System ==> t == Transcript(messages, Failed(r.kind))
  {
    if r.Message? {
      assert messages + ParseAll(whole).messages == messages + [r.text] + ParseAll(rest).messages;
    }
  }

  /** The messages of a stream, read one after the other until it ends or the schedule runs out. */
  method Drain(reader: MessageReader, socket: Socket) returns (messages: seq<string>, end: ReadResult)
    requires reader.Valid()
    modifies reader, reader.header, socket`incoming, socket`recvs, socket`taken
    ensures reader.Valid() && !end.Message?
    ensures end.PeerClosed? ==> ParseAll(old(reader.Pending() + socket.incoming)) == Transcript(messages, Closed)
    ensures end.ReadFailed? && end.kind != System ==>
              ParseAll(old(reader.Pending() + socket.incoming)) == Transcript(messages, Failed(end.kind))
    ensures end.Incomplete? || end == ReadFailed(System) ==>
              ReadSoFar(ParseAll(old(reader.Pending() + socket.incoming)), messages, reader.Pending() + socket.incoming)
    // every scheduled move brings bytes until the stream ends, and only the schedule breaks or stops it
    ensures Moves(old(socket.recvs)) + |socket.incoming| <= Moves(socket.recvs) + |old(socket.incoming)| + EofMoves(end)
    ensures end.Incomplete? ==> socket.recvs == []
    ensures end == ReadFailed(System) ==> CanBreak(old(socket.recvs))
  {
    hide ParseAll, Parse, Moves, Scheduled, Reads, ReadSoFar, CanBreak, Partial, MessageReader.Valid;
    ghost var (t, schedule) := (ParseAll(reader.Pending() + socket.incoming), socket.recvs);
    NothingRead(reader.Pending() + socket.incoming);
    messages := [];
    while true
      invariant reader.Valid()
      invariant ReadSoFar(t, messages, reader.Pending() + socket.incoming)
      invariant CanBreak(socket.recvs) ==> CanBreak(schedule)
      invariant Moves(schedule) + |socket.incoming| <= Moves(socket.recvs) + |old(socket.incoming)|
      decreases |socket.recvs|, |reader.Pending() + socket.incoming|
    {
      ghost var (whole, before) := (reader.Pending() + socket.incoming, socket.recvs);
      end := reader.ReadFrom(socket);
      NotBroken(end, before, socket.recvs);
      ReadOne(t, messages, whole, end, socket.incoming);
      if end.Message? {
        assert reader.Pending() + socket.incoming == socket.incoming;
        messages := messages + [end.text];
      } else if !end.Incomplete? || socket.recvs == [] {
        return;
      }
    }
  }

  class MessageWriter {
    const header: array<char>
    var headerBytes: nat
    var payload: string
    var payloadBytes: nat
    var pending: bool

    ghost predicate Valid()
      reads this, header
    {
      && header.Length == HEADER_SIZE
      && headerBytes <= HEADER_SIZE
      && payloadBytes <= |payload|
      && (!pending ==> headerBytes == 0 && payloadBytes == 0)
      && (headerBytes < HEADER_SIZE ==> payloadBytes == 0)
      && (pending ==> |payload| <= MAX_MESSAGE_SIZE && header[..] == HeaderOf(|payload|))
    }

    /** The bytes of the queued frame that are still to be sent. */
    ghost function Remaining(): string
      requires Valid()
      reads this, header
    {
      if pending then header[headerBytes..] + payload[payloadBytes..] else ""
    }

    constructor ()
      ensures Valid() && fresh(header) && !pending
    {
      header := new char[HEADER_SIZE](_ => '\0');
      headerBytes, payload, payloadBytes, pending := 0, "", 0, false;
    }

    method Queue(message: string) returns (r: WriteResult)
      requires Valid()
      modifies this, header
      ensures Valid()
      ensures r == if old(pending) then WriteFailed(InvalidFrame)
                   else if |message| > MAX_MESSAGE_SIZE then WriteFailed(MessageTooLarge)
                   else Written
      ensures r.Written? ==> pending && Remaining() == Frame(message)
      ensures !r.Written? ==> pending == old(pending) && Remaining() == old(Remaining())
    {
      if pending {
        return WriteFailed(InvalidFrame);
      }
      if |message| > MAX_MESSAGE_SIZE {
        return WriteFailed(MessageTooLarge);
      }
      var bytes := HeaderOf(|message|);
      forall i | 0 <= i < HEADER_SIZE {
        header[i] := bytes[i];
      }
      assert header[..] == bytes;
      payload := message;
      pending := true;
      assert Remaining() == header[..] + payload;
      return Written;
    }

    /** The header loop; `None` means that the header is sent. */
    method WriteHeader(socket: Socket) returns (r: Option<WriteResult>)
      requires Valid() && pending
      modifies `headerBytes, socket`sent, socket`sends
      ensures Valid() && socket.sent + Remaining() == old(socket.sent + Remaining())
      ensures old(socket.sent) <= socket.sent
      ensures r.None? ==> headerBytes == HEADER_SIZE
      ensures r.Some? ==> (r.value == Blocked || r.value == WriteFailed(System)) && Remaining() != ""
      ensures Sending(if r.None? then Written else r.value, old(socket.sends), socket.sends)
      ensures Moves(old(socket.sends)) + |old(socket.sent)| <= Moves(socket.sends) + |socket.sent|
    {
      hide Runs, Waits, Broke, Moves;
      NoEvents(socket.sends);
      while headerBytes < HEADER_SIZE
        invariant Valid() && socket.sent + Remaining() == old(socket.sent + Remaining())
        invariant old(socket.sent) <= socket.sent
        invariant Runs(old(socket.sends), socket.sends)
        invariant Moves(old(socket.sends)) + |old(socket.sent)| <= Moves(socket.sends) + |socket.sent|
        decreases |socket.sends|, HEADER_SIZE - headerBytes
      {
        RunsStep(old(socket.sends), socket.sends);
        ghost var (before, rest) := (socket.sent, payload[payloadBytes..]);
        var bytes := header[headerBytes..];
        var result := socket.Send(bytes);
        match result
        case Accepted(count) =>
          headerBytes := headerBytes + count;
          assert header[headerBytes..] == bytes[count..];
          SentMoves(before, bytes, count, rest);
        case Refused =>
          return Some(WriteFailed(System));
        case SendFailed(errno) =>
          if errno != Interrupted {
            return Some(if errno == WouldBlock then Blocked else WriteFailed(System));
          }
      }
      return None;
    }

    /** The payload loop; `None` means that the payload is sent. */
    method WritePayload(socket: Socket) returns (r: Option<WriteResult>)
      requires Valid() && pending && headerBytes == HEADER_SIZE
      modifies `payloadBytes, socket`sent, socket`sends
      ensures Valid() && socket.sent + Remaining() == old(socket.sent + Remaining())
      ensures old(socket.sent) <= socket.sent
      ensures r.None? ==> payloadBytes == |payload|
      ensures r.Some? ==> (r.value == Blocked || r.value == WriteFailed(System)) && Remaining() != ""
      ensures Sending(if r.None? then Written else r.value, old(socket.sends), socket.sends)
      ensures Moves(old(socket.sends)) + |old(socket.sent)| <= Moves(socket.sends) + |socket.sent|
    {
      hide Runs, Waits, Broke, Moves;
      NoEvents(socket.sends);
      PayloadLeft();
      while payloadBytes < |payload|
        invariant Valid()
        invariant socket.sent + payload[payloadBytes..] == old(socket.sent + Remaining())
        invariant old(socket.sent) <= socket.sent
        invariant Runs(old(socket.sends), socket.sends)
        invariant Moves(old(socket.sends)) + |old(socket.sent)| <= Moves(socket.sends) + |socket.sent|
        decreases |socket.sends|, |payload| - payloadBytes
      {
        RunsStep(old(socket.sends), socket.sends);
        ghost var before := socket.sent;
        var bytes := payload[payloadBytes..];
        var result := socket.Send(bytes);
        match result
        case Accepted(count) =>
          payloadBytes := payloadBytes + count;
          assert payload[payloadBytes..] == bytes[count..];
          SentMoves(before, bytes, count, "");
          assert bytes + "" == bytes && bytes[count..] + "" == bytes[count..];
        case Refused =>
          PayloadLeft();
          return Some(WriteFailed(System));
        case SendFailed(errno) =>
          if errno != Interrupted {
            PayloadLeft();
            return Some(if errno == WouldBlock then Blocked else WriteFailed(System));
          }
      }
      PayloadLeft();
      return None;
    }

    lemma PayloadLeft()
      requires Valid() && pending && headerBytes == HEADER_SIZE
      ensures Remaining() == payload[payloadBytes..]
    {
      assert header[headerBytes..] + payload[payloadBytes..] == payload[payloadBytes..];
    }

    /** Sends as much of the queued frame as the socket accepts: what is sent and what remains
        is always the same string. */
    method WriteTo(socket: Socket) returns (r: WriteResult)
      requires Valid()
      modifies this, header, socket`sent, socket`sends
      ensures Valid()
      ensures socket.sent + Remaining() == old(socket.sent + Remaining()) && old(socket.sent) <= socket.sent
      ensures r.Written? ==> !pending
      ensures pending ==> old(pending)
      ensures r.Blocked? ==> pending && Remaining() != ""
      ensures r.WriteFailed? ==> r.kind == System
      // the schedule is read as far as it is needed, and every move sends bytes
      ensures Sending(r, old(socket.sends), socket.sends)
      ensures Moves(old(socket.sends)) + |old(socket.sent)| <= Moves(socket.sends) + |socket.sent|
    {
      hide Runs, Waits, Broke, Moves;
      ghost var before := socket.sends;
      NoEvents(before);
      if !pending {
        return Written;
      }
      var early := WriteHeader(socket);
      if early.Some? {
        return early.value;
      }
      ghost var mid := socket.sends;
      early := WritePayload(socket);
      RunsOn(before, mid, socket.sends);
      if early.Some? {
        return early.value;
      }
      assert Remaining() == "";
      Reset();
      return Written;
    }

    lemma SentMoves(sent: string, bytes: string, count: nat, rest: string)
      requires count <= |bytes|
      ensures (sent + bytes[..count]) + (bytes[count..] + rest) == sent + (bytes + rest)
    {
      assert bytes == bytes[..count] + bytes[count..];
    }

    method Reset()
      requires header.Length == HEADER_SIZE
      modifies this, header
      ensures Valid() && !pending
    {
      forall i | 0 <= i < HEADER_SIZE {
        header[i] := '\0';
      }
      headerBytes, payload, payloadBytes, pending := 0, "", 0, false;
    }
  }
}
