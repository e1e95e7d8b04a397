/** Requests and the commands behind them (server/src/executor.cpp, server/src/command.cpp). */
module Executor {
  import opened Wrappers
  import opened ArenaImage
  import opened Framing
  import opened Tokenizer
  import opened TableSteps
  import opened FastMaps
  import MapImage

  datatype CommandResult = CommandResult(stop: bool, error: bool, output: string)

  datatype ParseResult = Command(name: string, args: seq<string>) | Rejected(error: string)

  const MAX_COMMAND_ARGS: nat := 2

  /** The registered commands and the number of arguments each one takes. */
  function RequiredArgs(name: string): (n: Option<nat>)
    ensures n.Some? ==> n.value <= MAX_COMMAND_ARGS
  {
    if name == "exit" || name == "ping" || name == "flush" then Some(0)
    else if name == "get" || name == "del" then Some(1)
    else if name == "set" then Some(2)
    else None
  }

  function NoSuchCommand(name: string): string {
    "No such command '" + name + "'"
  }

  function WrongArgs(name: string): string {
    "Invalid number of args for command '" + name + "'"
  }

  /** What a list of words means as a request. */
  function Understood(words: seq<string>): (r: ParseResult)
    ensures r.Command? ==> RequiredArgs(r.name) == Some(|r.args|) && words == [r.name] + r.args
  {
    if words == [] then Rejected("Empty input")
    else if RequiredArgs(words[0]) == None then Rejected(NoSuchCommand(words[0]))
    else if RequiredArgs(words[0]) != Some(|words| - 1) then Rejected(WrongArgs(words[0]))
    else Command(words[0], words[1..])
  }

  method ParseCommand(input: string) returns (r: ParseResult)
    ensures r == Understood(Tokens(input))
  {
    hide Tokens, Understood;
    assert input[0..] == input;
    var operation, position := NextToken(input, 0);
    if operation == "" {
      UnderstoodAs(Tokens(input));
      return Rejected("Empty input");
    }
    var required := RequiredArgs(operation);
    ghost var rest := Tokens(input[position..]);
    assert Tokens(input) == [operation] + rest;
    UnderstoodAs(Tokens(input));
    if required.None? {
      return Rejected(NoSuchCommand(operation));
    }
    var args: seq<string> := [];
    while true
      invariant position <= |input| && |args| <= MAX_COMMAND_ARGS
      invariant rest == args + Tokens(input[position..])
      decreases |input| - position
    {
      var argument, next := NextToken(input, position);
      if argument == "" {
        break;
      }
      if |args| == MAX_COMMAND_ARGS {
        return Rejected(WrongArgs(operation));
      }
      assert args + ([argument] + Tokens(input[next..])) == args + [argument] + Tokens(input[next..]);
      args := args + [argument];
      position := next;
    }
    assert rest == args;
    if |args| != required.value {
      return Rejected(WrongArgs(operation));
    }
    return Command(operation, args);
  }

  lemma UnderstoodAs(words: seq<string>)
    ensures words == [] ==> Understood(words) == Rejected("Empty input")
    ensures words != [] ==>
              var (name, args) := (words[0], words[1..]);
              Understood(words) ==
              match RequiredArgs(name)
              case None => Rejected(NoSuchCommand(name))
              case Some(n) => if |args| == n then Command(name, args) else Rejected(WrongArgs(name))
  {
  }

  // ----- the meaning of a request

  /** The reply to a request and the plain map after it. */
  function Execute(m: map<string, string>, input: string): (CommandResult, map<string, string>) {
    match Understood(Tokens(input))
    case Rejected(error) => (CommandResult(false, true, error), m)
    case Command(name, args) =>
      if name == "exit" then (CommandResult(true, false, ""), m)
      else if name == "ping" then (CommandResult(false, false, "pong"), m)
      else if name == "get" then
        (CommandResult(false, false, if args[0] in m then m[args[0]] else "NULL"), m)
      else if name == "set" then (CommandResult(false, false, "OK"), m[args[0] := args[1]])
      else if name == "del" then
        (CommandResult(false, false, if args[0] in m then "OK" else "NULL"), m - {args[0]})
      else (CommandResult(false, false, "OK"), map[])
  }

  /** The request stores a strictly shorter value under a key that is present. */
  predicate Shortens(m: map<string, string>, input: string) {
    var r := Understood(Tokens(input));
    r.Command? && r.name == "set" && r.args[0] in m && |r.args[1]| < |m[r.args[0]]|
  }

  /** `None` is the undefined behaviour of the arena's overwrite. */
  method RunCommand(store: FastMap, input: string) returns (o: Option<CommandResult>)
    requires store.Valid() && store.capacity >= 4 && |input| < WORD32
    modifies store.Repr
    ensures o.None? <==> store.rule.AsWritten? && Shortens(old(store.contents), input)
    ensures o.Some? ==>
              && store.Valid() && fresh(store.Repr - old(store.Repr)) && store.capacity >= 4
              && (o.value, store.contents) == Execute(old(store.contents), input)
  {
    hide Tokens, FastMap.Valid, FastMap.Readable, FastMap.Owns, SetOn, GetOn, Legible;
    var parsed := ParseCommand(input);
    if parsed.Rejected? {
      return Some(CommandResult(false, true, parsed.error));
    }
    var (name, args) := (parsed.name, parsed.args);
    ArgumentsFit(input);
    store.Load();
    if name == "exit" {
      return Some(CommandResult(true, false, ""));
    } else if name == "ping" {
      return Some(CommandResult(false, false, "pong"));
    } else if name == "get" {
      var found := store.Get(args[0]);
      return Some(CommandResult(false, false, if found.Some? then found.value else "NULL"));
    } else if name == "set" {
      var done := store.Set(args[0], args[1]);
      if done == Overrun {
        return None;
      }
      return Some(CommandResult(false, false, "OK"));
    } else if name == "del" {
      var removed := store.Remove(args[0]);
      return Some(CommandResult(false, false, if removed then "OK" else "NULL"));
    } else {
      store.Clear();
      return Some(CommandResult(false, false, "OK"));
    }
  }

  // ----- sizes of what is stored and replied

  /** Arguments are words, and together with the command they fit in the request. */
  lemma ArgumentsFit(input: string)
    ensures var r := Understood(Tokens(input));
            r.Command? ==>
              && (forall i :: 0 <= i < |r.args| ==> IsWord(r.args[i]) && |r.args[i]| < |input|)
              && (|r.args| == 2 ==> |r.name| + |r.args[0]| + |r.args[1]| + 2 <= |input|)
  {
    hide Tokens;
    TokensFit(input);
    SizesAdd(Tokens(input));
  }

  lemma SizesAdd(words: seq<string>)
    ensures |words| == 2 ==> TotalSize(words) == |words[0]| + |words[1]|
    ensures |words| == 3 ==> TotalSize(words) == |words[0]| + |words[1]| + |words[2]|
  {
    var rest := if words == [] then [] else words[1..];
    if |words| == 2 {
      assert TotalSize(rest) == |words[1]| + TotalSize(rest[1..]);
    } else if |words| == 3 {
      assert TotalSize(rest) == |words[1]| + TotalSize(rest[1..]);
      assert TotalSize(rest[1..]) == |words[2]| + TotalSize(rest[1..][1..]);
    }
  }

  /** What a store that is only fed through messages contains. */
  predicate Bounded(m: map<string, string>) {
    forall k :: k in m ==> k != "" && m[k] != "" && |k| + |m[k]| + 5 <= MAX_MESSAGE_SIZE
  }

  lemma ExecuteBounded(m: map<string, string>, input: string)
    requires Bounded(m) && |input| <= MAX_MESSAGE_SIZE
    ensures Bounded(Execute(m, input).1)
  {
    hide Tokens;
    ArgumentsFit(input);
  }

  /** The reply to any request fits in a message, except to a word that is not a command
      and leaves no room for the eighteen characters around it. */
  lemma ReplyFits(m: map<string, string>, input: string)
    requires Bounded(m) && |input| <= MAX_MESSAGE_SIZE
    ensures |Execute(m, input).0.output| > MAX_MESSAGE_SIZE <==>
            var words := Tokens(input);
            words != [] && RequiredArgs(words[0]) == None && |words[0]| + 18 > MAX_MESSAGE_SIZE
  {
    hide Tokens;
    ArgumentsFit(input);
  }

  /** Such a request: one word as long as a message may be. */
  lemma LongWordUnanswered(m: map<string, string>)
    ensures var word: string := seq(MAX_MESSAGE_SIZE, _ => 'x');
            && Tokens(word) == [word] && RequiredArgs(word) == None
            && |Execute(m, word).0.output| > MAX_MESSAGE_SIZE
  {
    hide Tokens;
    var word: string := seq(MAX_MESSAGE_SIZE, _ => 'x');
    TokensWord(word, "");
    NoTokens();
    assert word + "" == word;
  }

  /** The server stops a connection for one command only, and that one has nothing to say. */
  lemma OnlyExitStops(m: map<string, string>, input: string)
    ensures Execute(m, input).0.stop <==> Tokens(input) == ["exit"]
    ensures Execute(m, input).0.stop ==> Execute(m, input) == (CommandResult(true, false, ""), m)
  {
    hide Tokens;
  }

  /** A rejected request changes nothing. */
  lemma RejectedKeeps(m: map<string, string>, input: string)
    ensures Execute(m, input).0.error <==> Understood(Tokens(input)).Rejected?
    ensures Execute(m, input).0.error || Execute(m, input).0.stop ==> Execute(m, input).1 == m
  {
  }
}
