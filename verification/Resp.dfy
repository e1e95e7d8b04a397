/**
 * The Redis serialization protocol as the benchmark speaks it
 * (benchmark/src/redis_backend.cpp): the bytes of a request and the meaning of a reply.
 */
module Resp {
  import opened Wrappers
  import opened Decimal

  const MAX_REPLY_SIZE: nat := 16_777_215

  datatype Reply =
    | Simple(text: string)
    | Bulk(text: string)
    | Nil
    | Integer(value: int)

  const CRLF := "\r\n"

  // ----- requests

  function EncodeBulk(argument: string): string {
    "$" + Format(|argument|) + CRLF + argument + CRLF
  }

  function EncodeBulks(arguments: seq<string>): string {
    if arguments == [] then ""
    else EncodeBulks(arguments[..|arguments| - 1]) + EncodeBulk(arguments[|arguments| - 1])
  }

  function Encode(arguments: seq<string>): string {
    "*" + Format(|arguments|) + CRLF + EncodeBulks(arguments)
  }

  lemma NoBulks()
    ensures EncodeBulks([]) == ""
  {
  }

  lemma EncodeBulksStep(arguments: seq<string>, i: nat)
    requires i < |arguments|
    ensures EncodeBulks(arguments[..i + 1]) == EncodeBulks(arguments[..i]) + EncodeBulk(arguments[i])
  {
    assert arguments[..i + 1][..i] == arguments[..i];
  }

  method EncodeRequest(arguments: seq<string>) returns (output: string)
    ensures output == Encode(arguments)
  {
    hide EncodeBulks, Format;
    output := "*" + Format(|arguments|) + CRLF;
    NoBulks();
    for i := 0 to |arguments|
      invariant output == ("*" + Format(|arguments|) + CRLF) + EncodeBulks(arguments[..i])
    {
      EncodeBulksStep(arguments, i);
      ghost var before := output;
      output := output + ("$" + Format(|arguments[i]|) + CRLF);
      output := output + arguments[i];
      output := output + CRLF;
      assert output == before + EncodeBulk(arguments[i]);
    }
    assert arguments[..|arguments|] == arguments;
  }

  // ----- replies

  datatype LineResult = Line(text: string, rest: string) | NoLine

  /** A line of at most MAX_REPLY_SIZE characters that ends in CR LF; `size` of them are already read. */
  function TakeLine(s: string, size: nat): (r: LineResult)
    ensures r.Line? ==> s == r.text + CRLF + r.rest
    decreases |s|
  {
    if size > MAX_REPLY_SIZE || s == "" then NoLine
    else if s[0] == '\r' then
      if |s| >= 2 && s[1] == '\n' then Line("", s[2..]) else NoLine
    else
      match TakeLine(s[1..], size + 1)
      case Line(text, rest) => Line([s[0]] + text, rest)
      case NoLine => NoLine
  }

  /** A line is exactly what stands before the first carriage return, when a line feed follows it in time. */
  lemma {:induction false} TakeLineIff(s: string, size: nat, text: string, rest: string)
    ensures TakeLine(s, size) == Line(text, rest) <==>
            s == text + "\r\n" + rest && '\r' !in text && size + |text| <= MAX_REPLY_SIZE
    decreases |s|
  {
    if s == text + "\r\n" + rest && '\r' !in text {
      TakeLineOf(text, rest, size);
    }
    if TakeLine(s, size).Line? && s[0] != '\r' {
      var r := TakeLine(s[1..], size + 1);
      TakeLineIff(s[1..], size + 1, r.text, r.rest);
    }
  }

  datatype ReplyResult = Parsed(reply: Reply, rest: string) | Malformed

  /** What the stream `s` starts with. */
  function ParseReply(s: string): ReplyResult {
    if s == "" then Malformed
    else
      match TakeLine(s[1..], 0)
      case NoLine => Malformed
      case Line(line, rest) =>
        if s[0] == '+' then Parsed(Simple(line), rest)
        else if s[0] == ':' then
          (match ParseInteger(line) case Some(n) => Parsed(Integer(n), rest) case None => Malformed)
        else if s[0] == '$' then
          (match ParseInteger(line) case Some(n) => ParseBulk(n, rest) case None => Malformed)
        else Malformed
  }

  function ParseBulk(size: int, s: string): ReplyResult {
    if size == -1 then Parsed(Nil, s)
    else if size < 0 || size > MAX_REPLY_SIZE || |s| < size + 2 || s[size..size + 2] != CRLF then Malformed
    else Parsed(Bulk(s[..size]), s[size + 2..])
  }

  /** One reply per argument, in order. */
  function ParseReplies(n: nat, s: string): Option<(seq<Reply>, string)> {
    if n == 0 then Some(([], s))
    else
      match ParseReply(s)
      case Malformed => None
      case Parsed(reply, rest) =>
        match ParseReplies(n - 1, rest)
        case None => None
        case Some((replies, rest)) => Some(([reply] + replies, rest))
  }

  /** An array header line and then its elements: a request as its receiver sees it. */
  function ParseRequest(s: string): Option<(seq<Reply>, string)> {
    if s == "" || s[0] != '*' then None
    else
      match TakeLine(s[1..], 0)
      case NoLine => None
      case Line(line, rest) =>
        match ParseInteger(line)
        case Some(n) => if n >= 0 then ParseReplies(n, rest) else None
        case None => None
  }

  // ----- round trips

  /** A line is recovered exactly when it is short enough. */
  lemma {:induction false} TakeLineOf(text: string, rest: string, size: nat)
    requires '\r' !in text
    ensures TakeLine(text + CRLF + rest, size) ==
            if size + |text| <= MAX_REPLY_SIZE then Line(text, rest) else NoLine
    decreases |text|
  {
    var s := text + CRLF + rest;
    if text == "" {
      assert s == CRLF + rest && s[2..] == rest;
    } else {
      assert s[1..] == text[1..] + CRLF + rest;
      TakeLineOf(text[1..], rest, size + 1);
      assert [text[0]] + text[1..] == text;
    }
  }

  lemma FormatShort(n: nat)
    ensures n <= INT64_MAX ==> |Format(n)| <= MAX_REPLY_SIZE
    ensures '\r' !in Format(n)
  {
    FormatBounded(n);
  }

  lemma NineteenDigits()
    ensures INT64_MAX + 1 < Power10(19)
  {
    assert Power10(1) == 10;
    Power10Adds(1, 1);
    Power10Adds(2, 2);
    Power10Adds(4, 4);
    Power10Adds(8, 8);
    Power10Adds(16, 2);
    Power10Adds(18, 1);
  }

  lemma FormatBounded(n: nat)
    ensures '\r' !in Format(n) && '\r' !in "-" + Format(n)
    ensures n <= INT64_MAX + 1 ==> |Format(n)| + 1 <= MAX_REPLY_SIZE
  {
    assert forall i :: 0 <= i < |Format(n)| ==> IsDigit(Format(n)[i]);
    NineteenDigits();
    FormatLength(n, 19);
  }

  lemma {:induction false} FormatLength(n: nat, k: nat)
    requires k > 0
    ensures n < Power10(k) ==> |Format(n)| <= k
  {
    assert Power10(1) == 10;
    if n >= 10 && n < Power10(k) {
      FormatLength(n / 10, k - 1);
    }
  }

  /** `read_reply` undoes one element of `encode_request`. */
  lemma ParseEncodedBulk(argument: string, rest: string)
    requires |argument| <= MAX_REPLY_SIZE
    ensures ParseReply(EncodeBulk(argument) + rest) == Parsed(Bulk(argument), rest)
  {
    var s := EncodeBulk(argument) + rest;
    var body := argument + CRLF + rest;
    FormatShort(|argument|);
    ParseFormat(|argument|);
    assert s[1..] == Format(|argument|) + CRLF + body;
    TakeLineOf(Format(|argument|), body, 0);
    assert body[..|argument|] == argument && body[|argument|..|argument| + 2] == CRLF && body[|argument| + 2..] == rest;
  }

  lemma {:induction false} EncodeBulksCons(argument: string, arguments: seq<string>)
    ensures EncodeBulks([argument] + arguments) == EncodeBulk(argument) + EncodeBulks(arguments)
    decreases |arguments|
  {
    hide EncodeBulk;
    var all := [argument] + arguments;
    if arguments == [] {
      assert all[..0] == [] && EncodeBulks([]) == "";
    } else {
      var n := |arguments| - 1;
      EncodeBulksCons(argument, arguments[..n]);
      assert all[..n + 1] == [argument] + arguments[..n];
      assert EncodeBulks(all) == (EncodeBulk(argument) + EncodeBulks(arguments[..n])) + EncodeBulk(arguments[n]);
      assert EncodeBulks(arguments) == EncodeBulks(arguments[..n]) + EncodeBulk(arguments[n]);
    }
  }

  predicate AllShort(arguments: seq<string>) {
    forall i :: 0 <= i < |arguments| ==> |arguments[i]| <= MAX_REPLY_SIZE
  }

  function Bulks(arguments: seq<string>): seq<Reply> {
    seq(|arguments|, i requires 0 <= i < |arguments| => Bulk(arguments[i]))
  }

  lemma {:induction false} ParseEncodedBulks(arguments: seq<string>, rest: string)
    requires AllShort(arguments)
    ensures ParseReplies(|arguments|, EncodeBulks(arguments) + rest) == Some((Bulks(arguments), rest))
    decreases |arguments|
  {
    hide EncodeBulk, ParseReply;
    if arguments == [] {
      assert EncodeBulks(arguments) + rest == rest;
    } else {
      var (a, more) := (arguments[0], arguments[1..]);
      assert arguments == [a] + more;
      EncodeBulksCons(a, more);
      assert EncodeBulks(arguments) + rest == EncodeBulk(a) + (EncodeBulks(more) + rest);
      ParseEncodedBulk(a, EncodeBulks(more) + rest);
      ParseEncodedBulks(more, rest);
      assert Bulks(arguments) == [Bulk(a)] + Bulks(more);
    }
  }

  /** Every request is read back as its arguments, and exactly its own bytes are consumed. */
  lemma RequestRoundTrip(arguments: seq<string>, rest: string)
    requires AllShort(arguments) && |arguments| <= INT64_MAX
    ensures ParseRequest(Encode(arguments) + rest) == Some((Bulks(arguments), rest))
  {
    hide ParseReplies, EncodeBulks;
    var n := |arguments|;
    var body := EncodeBulks(arguments) + rest;
    var s := Encode(arguments) + rest;
    FormatShort(n);
    ParseFormat(n);
    assert s[1..] == Format(n) + CRLF + body;
    TakeLineOf(Format(n), body, 0);
    ParseEncodedBulks(arguments, rest);
  }

  /** The encoding is a prefix code: one stream of bytes cannot start with two different requests. */
  lemma RequestPrefixCode(a: seq<string>, b: seq<string>, x: string, y: string)
    requires AllShort(a) && AllShort(b) && |a| <= INT64_MAX && |b| <= INT64_MAX
    requires Encode(a) + x == Encode(b) + y
    ensures a == b && x == y
  {
    hide Encode, ParseRequest;
    RequestRoundTrip(a, x);
    RequestRoundTrip(b, y);
    assert Bulks(a) == Bulks(b);
    forall i | 0 <= i < |a| ensures a[i] == b[i] {
      assert Bulks(a)[i] == Bulks(b)[i];
    }
  }

  // ----- each kind of reply, from its bytes

  /** What follows the first byte, when a whole line does. */
  lemma ReplyLine(first: char, line: string, rest: string)
    requires '\r' !in line
    ensures var s := [first] + line + "\r\n" + rest;
            && s[0] == first
            && TakeLine(s[1..], 0) == if |line| <= MAX_REPLY_SIZE then Line(line, rest) else NoLine
  {
    var s := [first] + line + "\r\n" + rest;
    assert s[1..] == line + CRLF + rest;
    TakeLineOf(line, rest, 0);
  }

  lemma SimpleReply(text: string, rest: string)
    requires '\r' !in text
    ensures ParseReply("+" + text + "\r\n" + rest) == if |text| <= 16_777_215 then Parsed(Simple(text), rest) else Malformed
  {
    hide TakeLine;
    ReplyLine('+', text, rest);
  }

  lemma IntegerReply(n: nat, rest: string)
    ensures n <= INT64_MAX ==> ParseReply(":" + Format(n) + "\r\n" + rest) == Parsed(Integer(n), rest)
    ensures n <= INT64_MAX + 1 ==> ParseReply(":" + ("-" + Format(n)) + "\r\n" + rest) == Parsed(Integer(0 - n), rest)
  {
    hide TakeLine, ParseInteger, Format;
    FormatBounded(n);
    ParseFormat(n);
    ParseNegative(n);
    ReplyLine(':', Format(n), rest);
    ReplyLine(':', "-" + Format(n), rest);
  }

  lemma NilReply(rest: string)
    ensures ParseReply("$-1\r\n" + rest) == Parsed(Nil, rest)
  {
    hide TakeLine, ParseInteger, Format;
    ParseNegative(1);
    assert Format(1) == "1" && "-" + "1" == "-1" by {
      OneDigit(1);
    }
    ReplyLine('$', "-1", rest);
    assert ['$'] + "-1" + "\r\n" + rest == "$-1\r\n" + rest;
  }

  /** A bulk string needs its size within the limit, all of its bytes, and the line ending after them. */
  lemma BulkReply(n: nat, body: string)
    ensures ParseReply("$" + Format(n) + "\r\n" + body) ==
            if n <= 16_777_215 && n + 2 <= |body| && body[n..n + 2] == "\r\n" then Parsed(Bulk(body[..n]), body[n + 2..])
            else Malformed
    ensures 1 < n ==> ParseReply("$" + ("-" + Format(n)) + "\r\n" + body) == Malformed
  {
    hide TakeLine, ParseInteger, Format;
    FormatBounded(n);
    ParseFormat(n);
    ParseNegative(n);
    ReplyLine('$', Format(n), body);
    ReplyLine('$', "-" + Format(n), body);
  }

  /** Everything else is refused: an error reply, an unknown kind, no line, and no number where one belongs. */
  lemma RefusedReply(s: string)
    requires || s == "" || s[0] !in "+:$" || TakeLine(s[1..], 0).NoLine?
             || (s[0] != '+' && ParseInteger(TakeLine(s[1..], 0).text) == None)
    ensures ParseReply(s) == Malformed
  {
    hide TakeLine, ParseInteger;
  }

  /** The bytes of a request of two arguments, spelled out. */
  lemma EncodedPair(a: string, b: string)
    ensures Encode([a, b]) ==
            "*2\r\n" + ("$" + Format(|a|) + "\r\n" + a + "\r\n") + ("$" + Format(|b|) + "\r\n" + b + "\r\n")
  {
    OneDigit(2);
    var arguments := [a, b];
    assert arguments[..0] == [] && arguments[..2] == arguments;
    NoBulks();
    EncodeBulksStep(arguments, 0);
    EncodeBulksStep(arguments, 1);
    assert "" + EncodeBulk(a) == EncodeBulk(a);
    assert "*" + "2" + CRLF == "*2\r\n";
  }
}
