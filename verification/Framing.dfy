/**
 * The frames of the binary protocol: a four-byte big-endian size and the message.
 * `Parse` says what a byte stream that ends in end-of-file starts with.
 */
module Framing {
  const MAX_MESSAGE_SIZE: nat := 16_777_215
  const HEADER_SIZE: nat := 4

  datatype IoErrorKind = System | UnexpectedEof | InvalidFrame | MessageTooLarge

  datatype Parsed =
    | Complete(message: string, rest: string)
    | Closed
    | Failed(kind: IoErrorKind)

  // ----- the header

  /** The byte in a C++ char; a Dafny char is wider, and only its low eight bits count. */
  function ByteOf(c: char): (b: nat)
    ensures b < 256
  {
    c as int % 256
  }

  function HeaderOf(size: nat): (h: string)
    requires size < 0x1_0000_0000
    ensures |h| == HEADER_SIZE
  {
    [(size / 0x100_0000) as char, (size / 0x1_0000 % 256) as char, (size / 0x100 % 256) as char, (size % 256) as char]
  }

  function SizeOf(h: string): (size: nat)
    requires |h| == HEADER_SIZE
    ensures size < 0x1_0000_0000
  {
    ByteOf(h[0]) * 0x100_0000 + ByteOf(h[1]) * 0x1_0000 + ByteOf(h[2]) * 0x100 + ByteOf(h[3])
  }

  lemma HeaderRoundTrip(size: nat)
    requires size < 0x1_0000_0000
    ensures SizeOf(HeaderOf(size)) == size
  {
    var (s1, s2, s3) := (size / 0x100, size / 0x1_0000, size / 0x100_0000);
    assert s3 < 256;
    assert size == s1 * 256 + size % 256;
    assert s1 == s2 * 256 + s1 % 256;
    assert s2 == s3 * 256 + s2 % 256;
  }

  /** Distinct headers announce distinct sizes. */
  lemma SizeRoundTrip(h: string)
    requires |h| == HEADER_SIZE && forall i :: 0 <= i < |h| ==> h[i] as int < 256
    ensures HeaderOf(SizeOf(h)) == h
  {
    var (a, b, c, d) := (ByteOf(h[0]), ByteOf(h[1]), ByteOf(h[2]), ByteOf(h[3]));
    LastByte((a * 256 + b) * 256 + c, d);
    LastByte(a * 256 + b, c);
    LastByte(a, b);
  }

  /** Headers are ordered as the sizes they announce, by the first byte in which they differ. */
  lemma HeadersOrdered(a: nat, b: nat) returns (i: nat)
    requires a < b < 0x1_0000_0000
    ensures i < 4 && HeaderOf(a)[..i] == HeaderOf(b)[..i] && HeaderOf(a)[i] < HeaderOf(b)[i]
  {
    if a / 0x100_0000 != b / 0x100_0000 {
      i := 0;
    } else if a / 0x1_0000 != b / 0x1_0000 {
      i := 1;
    } else if a / 0x100 != b / 0x100 {
      i := 2;
    } else {
      i := 3;
    }
    Digits256(a);
    Digits256(b);
  }

  lemma Digits256(n: nat)
    requires n < 0x1_0000_0000
    ensures n == n / 0x100 * 0x100 + n % 0x100
    ensures n / 0x100 == n / 0x1_0000 * 0x100 + n / 0x100 % 0x100
    ensures n / 0x1_0000 == n / 0x100_0000 * 0x100 + n / 0x1_0000 % 0x100
    ensures n / 0x100_0000 < 0x100
  {
  }

  lemma LastByte(high: nat, low: nat)
    requires low < 256
    ensures (high * 256 + low) / 256 == high && (high * 256 + low) % 256 == low
  {
  }

  /** A size over the limit is one whose first byte is not zero. */
  lemma TooLargeIffFirstByte(h: string)
    requires |h| == HEADER_SIZE
    ensures SizeOf(h) > MAX_MESSAGE_SIZE <==> ByteOf(h[0]) != 0
  {
  }

  // ----- frames

  function Frame(message: string): (f: string)
    requires |message| <= MAX_MESSAGE_SIZE
    ensures |f| == HEADER_SIZE + |message|
  {
    HeaderOf(|message|) + message
  }

  function Parse(s: string): Parsed {
    if s == "" then Closed
    else if |s| < HEADER_SIZE then Failed(UnexpectedEof)
    else
      var size := SizeOf(s[..HEADER_SIZE]);
      if size > MAX_MESSAGE_SIZE then Failed(MessageTooLarge)
      else if |s| < HEADER_SIZE + size then Failed(UnexpectedEof)
      else Complete(s[HEADER_SIZE..HEADER_SIZE + size], s[HEADER_SIZE + size..])
  }

  /** What a stream starts with, by its length and its header: an oversize header is one whose first byte is not zero. */
  lemma ParseKinds(s: string)
    ensures Parse(s) == Closed <==> |s| == 0
    ensures Parse(s) == Failed(MessageTooLarge) <==> |s| >= 4 && ByteOf(s[0]) != 0
    ensures Parse(s) == Failed(UnexpectedEof) <==>
            0 < |s| < 4 || (|s| >= 4 && ByteOf(s[0]) == 0 && |s| - 4 < SizeOf(s[..4]))
    ensures Parse(s).Failed? ==> Parse(s).kind == MessageTooLarge || Parse(s).kind == UnexpectedEof
    ensures Parse(s).Complete? ==>
              |Parse(s).message| == SizeOf(s[..4]) && s == s[..4] + Parse(s).message + Parse(s).rest
  {
    if |s| >= 4 {
      TooLargeIffFirstByte(s[..4]);
    }
  }

  /** The messages of a stream, and how it ends. */
  datatype Transcript = Transcript(messages: seq<string>, end: Parsed)

  function ParseAll(s: string): (t: Transcript)
    ensures !t.end.Complete? && AllFit(t.messages)
    decreases |s|
  {
    match Parse(s)
    case Complete(m, rest) =>
      var t := ParseAll(rest);
      Transcript([m] + t.messages, t.end)
    case end => Transcript([], end)
  }

  predicate AllFit(messages: seq<string>) {
    forall i :: 0 <= i < |messages| ==> |messages[i]| <= MAX_MESSAGE_SIZE
  }

  function Frames(messages: seq<string>): string
    requires AllFit(messages)
  {
    if messages == [] then "" else Frames(messages[..|messages| - 1]) + Frame(messages[|messages| - 1])
  }

  /** The beginning of a frame that is not complete yet. */
  predicate Partial(p: string) {
    || |p| < HEADER_SIZE
    || (SizeOf(p[..HEADER_SIZE]) <= MAX_MESSAGE_SIZE && |p| < HEADER_SIZE + SizeOf(p[..HEADER_SIZE]))
  }

  lemma ParseFrame(message: string, rest: string)
    requires |message| <= MAX_MESSAGE_SIZE
    ensures Parse(Frame(message) + rest) == Complete(message, rest)
  {
    HeaderRoundTrip(|message|);
    var s := Frame(message) + rest;
    assert s[..HEADER_SIZE] == HeaderOf(|message|);
    assert s[HEADER_SIZE..HEADER_SIZE + |message|] == message;
    assert s[HEADER_SIZE + |message|..] == rest;
  }

  lemma {:induction false} FramesCons(message: string, messages: seq<string>)
    requires |message| <= MAX_MESSAGE_SIZE && AllFit(messages)
    ensures AllFit([message] + messages)
    ensures Frames([message] + messages) == Frame(message) + Frames(messages)
  {
    hide Frame;
    var all := [message] + messages;
    if messages == [] {
      assert all[..0] == [] && Frames([]) == "";
    } else {
      var n := |messages| - 1;
      FramesCons(message, messages[..n]);
      assert all[..n + 1] == [message] + messages[..n];
      assert Frames(all) == (Frame(message) + Frames(messages[..n])) + Frame(messages[n]);
      assert Frames(messages) == Frames(messages[..n]) + Frame(messages[n]);
    }
  }

  lemma ParseAllFrame(message: string, rest: string)
    requires |message| <= MAX_MESSAGE_SIZE
    ensures var t := ParseAll(rest);
            ParseAll(Frame(message) + rest) == Transcript([message] + t.messages, t.end)
  {
    hide Parse, Frame;
    ParseFrame(message, rest);
  }

  /** Framing loses nothing: a stream of whole frames parses back to the messages, and then is closed. */
  lemma {:induction false} ParseFrames(messages: seq<string>, tail: string)
    requires AllFit(messages)
    ensures ParseAll(Frames(messages) + tail) ==
            Transcript(messages + ParseAll(tail).messages, ParseAll(tail).end)
    decreases |messages|
  {
    hide Parse, Frame, ParseAll;
    if messages == [] {
      assert Frames(messages) + tail == tail;
      assert messages + ParseAll(tail).messages == ParseAll(tail).messages;
    } else {
      var (m, rest) := (messages[0], messages[1..]);
      assert messages == [m] + rest;
      FramesCons(m, rest);
      assert Frames(messages) + tail == Frame(m) + (Frames(rest) + tail);
      ParseAllFrame(m, Frames(rest) + tail);
      ParseFrames(rest, tail);
      assert messages + ParseAll(tail).messages == [m] + (rest + ParseAll(tail).messages);
    }
  }

  lemma NothingLeft()
    ensures ParseAll("") == Transcript([], Closed)
  {
  }

  /** What a stream of frames carries decides the frames: no message list encodes to a prefix of another's
      stream except by being a prefix itself. */
  lemma FramesPrefix(a: seq<string>, b: seq<string>, tail: string)
    requires AllFit(a) && AllFit(b)
    requires Frames(a) + tail == Frames(b)
    ensures a <= b
  {
    hide Parse, Frame, Frames;
    ParseFrames(a, tail);
    ParseFrames(b, "");
    assert Frames(b) + "" == Frames(b);
    assert b + ParseAll("").messages == a + ParseAll(tail).messages;
    NothingLeft();
    assert b + [] == b;
  }

  /** A stream ends cleanly exactly when it is a sequence of whole frames. */
  lemma {:induction false} ClosedIffWhole(s: string)
    requires forall i :: 0 <= i < |s| ==> s[i] as int < 256
    ensures ParseAll(s).end == Closed <==> s == Frames(ParseAll(s).messages)
    decreases |s|
  {
    if Parse(s).Complete? {
      var Complete(m, rest) := Parse(s);
      ClosedIffWhole(rest);
      SizeRoundTrip(s[..HEADER_SIZE]);
      assert s == Frame(m) + rest;
      var ms := ParseAll(rest).messages;
      FramesCons(m, ms);
      assert s == Frame(m) + Frames(ms) ==> rest == Frames(ms);
    } else {
      assert Frames([]) == "";
    }
  }
}
