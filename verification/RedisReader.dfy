/** Reading RESP from a socket (benchmark/src/redis_backend.cpp:47-141): under every schedule that
    neither breaks nor blocks, the outcome is that of `Resp.ParseReply` on the stream. */
module RedisReader {
  import opened Wrappers
  import opened Decimal
  import opened Resp
  import opened Sockets

  /** The stretch of the schedule was smooth, with at most one move for each of `n` bytes. */
  predicate Fed(before: seq<Event>, after: seq<Event>, n: int) {
    Runs(before, after) && Moves(before) <= Moves(after) + n
  }

  /** The schedule broke, blocked or ended before it had brought `n` bytes. */
  predicate Starved(before: seq<Event>, after: seq<Event>, n: int) {
    GivesUp(before, after) && Moves(before) < Moves(after) + n
  }

  lemma FedOn(before: seq<Event>, mid: seq<Event>, after: seq<Event>, n: int, k: int, all: int)
    requires Fed(before, mid, n) && n + k <= all
    ensures Fed(mid, after, k) ==> Fed(before, after, all)
    ensures Starved(mid, after, k) ==> Starved(before, after, all)
  {
    hide Runs, GivesUp;
    if Runs(mid, after) || GivesUp(mid, after) {
      Tries(before, mid, after);
    }
  }

  lemma NothingFed(before: seq<Event>)
    ensures Fed(before, before, 0)
  {
  }

  lemma Short(before: seq<Event>, after: seq<Event>, n: int)
    requires Starved(before, after, n)
    ensures !AllSmooth(before) || Moves(before) < n
  {
    GivenUp(before, after);
  }

  method ReadExactly(socket: Socket, size: nat) returns (r: Option<string>)
    modifies socket`incoming, socket`recvs, socket`taken
    ensures r.Some? ==> |r.value| == size && old(socket.incoming) == r.value + socket.incoming
    ensures r.Some? ==> Fed(old(socket.recvs), socket.recvs, size)
    ensures r.None? ==> |old(socket.incoming)| < size || Starved(old(socket.recvs), socket.recvs, size)
  {
    hide Runs, Waits, Broke, Moves;
    NoEvents(socket.recvs);
    var output := "";
    while |output| < size
      invariant |output| <= size && old(socket.incoming) == output + socket.incoming
      invariant Fed(old(socket.recvs), socket.recvs, |output|)
      decreases |socket.recvs|, size - |output|
    {
      RunsStep(old(socket.recvs), socket.recvs);
      var result := socket.Recv(size - |output|);
      match result
      case Received(bytes) =>
        output := output + bytes;
      case EndOfFile =>
        return None;
      case RecvFailed(errno) =>
        if errno != Interrupted {
          return None;
        }
    }
    return Some(output);
  }

  function Prepend(line: string, r: LineResult): LineResult {
    match r
    case Line(text, rest) => Line(line + text, rest)
    case NoLine => NoLine
  }

  lemma PrependStep(line: string, s: string)
    requires s != "" && s[0] != '\r' && |line| <= MAX_REPLY_SIZE
    ensures Prepend(line, TakeLine(s, |line|)) == Prepend(line + [s[0]], TakeLine(s[1..], |line| + 1))
  {
    var r := TakeLine(s[1..], |line| + 1);
    if r.Line? {
      assert line + ([s[0]] + r.text) == line + [s[0]] + r.text;
    }
  }

  method ReadLine(socket: Socket) returns (r: Option<string>)
    modifies socket`incoming, socket`recvs, socket`taken
    ensures r.Some? ==>
              && TakeLine(old(socket.incoming), 0) == Line(r.value, socket.incoming)
              && Fed(old(socket.recvs), socket.recvs, |old(socket.incoming)| - |socket.incoming|)
    ensures r.None? ==>
              match TakeLine(old(socket.incoming), 0)
              case NoLine => true
              case Line(_, rest) => Starved(old(socket.recvs), socket.recvs, |old(socket.incoming)| - |rest|)
  {
    hide Fed, Starved, TakeLine;
    ghost var (all, schedule, whole) := (socket.incoming, socket.recvs, TakeLine(socket.incoming, 0));
    NothingFed(schedule);
    var line := "";
    assert Prepend("", whole) == whole;
    while |line| <= MAX_REPLY_SIZE
      invariant |line| <= MAX_REPLY_SIZE + 1 && |socket.incoming| <= |all|
      invariant whole == Prepend(line, TakeLine(socket.incoming, |line|))
      invariant Fed(schedule, socket.recvs, |all| - |socket.incoming|)
      decreases MAX_REPLY_SIZE + 1 - |line|
    {
      ghost var (s, mid) := (socket.incoming, socket.recvs);
      LineEnds(s, |line|);
      var byte := ReadExactly(socket, 1);
      FedOn(schedule, mid, socket.recvs, |all| - |s|, 1, |all| - |s| + 1);
      if byte.None? {
        LineLeft(schedule, socket.recvs, line, s, |all|, 1);
        return None;
      }
      assert s == [s[0]] + socket.incoming && byte.value == [s[0]];
      if byte.value[0] == '\r' {
        ghost var (s', mid') := (socket.incoming, socket.recvs);
        var newline := ReadExactly(socket, 1);
        FedOn(schedule, mid', socket.recvs, |all| - |s| + 1, 1, |all| - |s| + 2);
        if newline.None? {
          LineLeft(schedule, socket.recvs, line, s, |all|, 2);
          return None;
        }
        assert s' == newline.value + socket.incoming;
        if newline.value[0] != '\n' {
          return None;
        }
        assert s[2..] == socket.incoming && s[1] == '\n';
        assert line + "" == line;
        return Some(line);
      }
      PrependStep(line, s);
      assert s[1..] == socket.incoming;
      line := line + byte.value;
    }
    LineEnds(socket.incoming, |line|);
    return None;
  }

  /** If the line that is being read has an end, it is at least two bytes away. */
  lemma LineLeft(before: seq<Event>, after: seq<Event>, line: string, s: string, all: nat, n: nat)
    requires n <= 2
    ensures match Prepend(line, TakeLine(s, |line|))
            case NoLine => true
            case Line(_, rest) => Starved(before, after, all - |s| + n) ==> Starved(before, after, all - |rest|)
  {
    hide TakeLine, Starved;
    var r := TakeLine(s, |line|);
    if r.Line? {
      assert |s| == |r.text| + 2 + |r.rest|;
      More(before, after, all - |s| + n);
    }
  }

  lemma LineEnds(s: string, size: nat)
    ensures s == "" || size > MAX_REPLY_SIZE ==> TakeLine(s, size) == NoLine
    ensures s != "" && s[0] == '\r' && size <= MAX_REPLY_SIZE ==>
              TakeLine(s, size) == if |s| >= 2 && s[1] == '\n' then Line("", s[2..]) else NoLine
  {
  }

  /** `None` is an error reply, a malformed one, or a failure of the connection. */
  method ReadReply(socket: Socket) returns (r: Option<Reply>)
    modifies socket`incoming, socket`recvs, socket`taken
    ensures r.Some? ==>
              && ParseReply(old(socket.incoming)) == Parsed(r.value, socket.incoming)
              && Fed(old(socket.recvs), socket.recvs, |old(socket.incoming)| - |socket.incoming|)
    ensures r.None? ==>
              match ParseReply(old(socket.incoming))
              case Malformed => true
              case Parsed(_, rest) => Starved(old(socket.recvs), socket.recvs, |old(socket.incoming)| - |rest|)
  {
    hide TakeLine, Fed, Starved;
    ghost var (s, schedule) := (socket.incoming, socket.recvs);
    var prefix := ReadExactly(socket, 1);
    if prefix.None? {
      PrefixLeft(schedule, socket.recvs, s);
      return None;
    }
    assert s[1..] == socket.incoming && prefix.value[0] == s[0];
    ghost var mid := socket.recvs;
    var line := ReadLine(socket);
    if line.None? {
      LineShort(schedule, mid, socket.recvs, s);
      return None;
    }
    FedOn(schedule, mid, socket.recvs, 1, |s| - 1 - |socket.incoming|, |s| - |socket.incoming|);
    if prefix.value == "-" {
      return None;
    }
    if prefix.value == "+" {
      return Some(Simple(line.value));
    }
    if prefix.value == ":" {
      var number := ParseInteger(line.value);
      return if number.Some? then Some(Integer(number.value)) else None;
    }
    if prefix.value != "$" {
      return None;
    }
    var size := ParseInteger(line.value);
    if size.None? {
      return None;
    }
    ghost var (body, mid') := (socket.incoming, socket.recvs);
    assert ParseReply(s) == ParseBulk(size.value, body);
    if size.value == -1 {
      return Some(Nil);
    }
    if size.value < 0 || size.value > MAX_REPLY_SIZE {
      return None;
    }
    r := ReadBulk(socket, size.value);
    FedOn(schedule, mid', socket.recvs, |s| - |body|, size.value + 2, |s| - |body| + size.value + 2);
  }

  /** What a reply takes from the stream: more than its prefix, and at least its line. */
  lemma PrefixLeft(before: seq<Event>, after: seq<Event>, s: string)
    ensures match ParseReply(s)
            case Malformed => true
            case Parsed(_, rest) => s != "" && (Starved(before, after, 1) ==> Starved(before, after, |s| - |rest|))
  {
    hide ParseInteger;
  }

  lemma LineShort(before: seq<Event>, mid: seq<Event>, after: seq<Event>, s: string)
    requires s != "" && Fed(before, mid, 1)
    requires match TakeLine(s[1..], 0)
             case NoLine => true
             case Line(_, rest) => Starved(mid, after, |s| - 1 - |rest|)
    ensures match ParseReply(s)
            case Malformed => true
            case Parsed(_, rest) => Starved(before, after, |s| - |rest|)
  {
    hide ParseInteger, Fed, Starved;
    if TakeLine(s[1..], 0).Line? {
      var rest := TakeLine(s[1..], 0).rest;
      FedOn(before, mid, after, 1, |s| - 1 - |rest|, |s| - |rest|);
      More(before, after, |s| - |rest|);
    }
  }

  lemma More(before: seq<Event>, after: seq<Event>, n: int)
    ensures Starved(before, after, n) ==> forall k | k >= n :: Starved(before, after, k)
  {
  }

  method ReadBulk(socket: Socket, size: nat) returns (r: Option<Reply>)
    requires size <= MAX_REPLY_SIZE
    modifies socket`incoming, socket`recvs, socket`taken
    ensures r.Some? ==>
              && ParseBulk(size, old(socket.incoming)) == Parsed(r.value, socket.incoming)
              && Fed(old(socket.recvs), socket.recvs, size + 2)
    ensures r.None? ==>
              ParseBulk(size, old(socket.incoming)) == Malformed || Starved(old(socket.recvs), socket.recvs, size + 2)
  {
    hide Fed, Starved;
    ghost var (s, schedule) := (socket.incoming, socket.recvs);
    var payload := ReadExactly(socket, size);
    if payload.None? {
      More(schedule, socket.recvs, size);
      return None;
    }
    assert s[..size] == payload.value && s[size..] == socket.incoming;
    ghost var mid := socket.recvs;
    var ending := ReadExactly(socket, 2);
    FedOn(schedule, mid, socket.recvs, size, 2, size + 2);
    if ending.None? {
      return None;
    }
    assert s[size..][..2] == ending.value && s[size..size + 2] == ending.value && s[size + 2..] == socket.incoming;
    if ending.value[0] != '\r' || ending.value[1] != '\n' {
      assert ending.value != CRLF;
      return None;
    }
    assert ending.value == CRLF;
    return Some(Bulk(payload.value));
  }

  /** A request that travels over any schedule arrives as its arguments, or not at all; and it does arrive
      if the schedule is smooth and long enough for one byte a move. */
  method Receive(arguments: seq<string>, recvs: seq<Event>) returns (r: Option<seq<Reply>>)
    requires AllShort(arguments) && |arguments| <= INT64_MAX
    ensures r.Some? ==> r.value == Bulks(arguments)
    ensures AllSmooth(recvs) && Moves(recvs) >= |Encode(arguments)| ==> r.Some?
  {
    hide ParseReply, EncodeBulks, TakeLine, Fed, Starved, AllSmooth, Moves;
    var wire := EncodeRequest(arguments);
    var socket := new Socket(wire, recvs, []);
    RequestRoundTrip(arguments, "");
    assert wire + "" == wire;
    var star := ReadExactly(socket, 1);
    if star.None? {
      Less(recvs, socket.recvs, 1, |wire|);
      return None;
    }
    assert wire[1..] == socket.incoming;
    ghost var mid := socket.recvs;
    var line := ReadLine(socket);
    if line.None? {
      var rest := TakeLine(wire[1..], 0).rest;
      FedOn(recvs, mid, socket.recvs, 1, |wire| - 1 - |rest|, |wire|);
      Less(recvs, socket.recvs, |wire|, |wire|);
      return None;
    }
    FedOn(recvs, mid, socket.recvs, 1, |wire| - 1 - |socket.incoming|, |wire| - |socket.incoming|);
    var count := ParseInteger(line.value);
    var replies: seq<Reply> := [];
    ghost var all := ParseReplies(count.value, socket.incoming);
    assert all.Some? && replies + all.value.0 == all.value.0;
    for i := 0 to count.value
      invariant Fed(recvs, socket.recvs, |wire| - |socket.incoming|)
      invariant var more := ParseReplies(count.value - i, socket.incoming);
                more.Some? && all == Some((replies + more.value.0, more.value.1))
    {
      ghost var (before, s, mid) := (ParseReplies(count.value - i, socket.incoming), socket.incoming, socket.recvs);
      var reply := ReadReply(socket);
      if reply.None? {
        var rest := ParseReply(s).rest;
        FedOn(recvs, mid, socket.recvs, |wire| - |s|, |s| - |rest|, |wire|);
        Less(recvs, socket.recvs, |wire|, |wire|);
        return None;
      }
      FedOn(recvs, mid, socket.recvs, |wire| - |s|, |s| - |socket.incoming|, |wire| - |socket.incoming|);
      ghost var rest := ParseReplies(count.value - i - 1, socket.incoming);
      assert before.value.0 == [reply.value] + rest.value.0;
      assert replies + before.value.0 == replies + [reply.value] + rest.value.0;
      replies := replies + [reply.value];
    }
    assert replies + [] == replies;
    return Some(replies);
  }

  lemma Less(before: seq<Event>, after: seq<Event>, n: int, enough: int)
    requires Starved(before, after, n) && n <= enough
    ensures AllSmooth(before) ==> Moves(before) < enough
  {
    Short(before, after, n);
  }
}
