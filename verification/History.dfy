/** What the log of the server says about single requests, without the store in between. */
module Histories {
  import opened Wrappers
  import opened Framing
  import opened Messages
  import opened Tokenizer
  import opened Executor
  import opened Connections
  import opened Servers
  import opened Requests
  import ArenaImage

  /** The requests of the log, in order. */
  function Asked(log: seq<LogEntry>): seq<string> {
    seq(|log|, i requires 0 <= i < |log| => log[i].exchange.request)
  }

  lemma {:induction false} StoreOfLog(log: seq<LogEntry>)
    ensures StateOf(log) == StoreAfter(Asked(log))
  {
    if log != [] {
      StoreOfLog(log[..|log| - 1]);
      assert Asked(log)[..|log| - 1] == Asked(log[..|log| - 1]);
    }
  }

  /** The last request before `n` to touch `k` set it to `v`. */
  ghost predicate Holds(log: seq<LogEntry>, n: nat, k: string, v: string)
    requires n <= |log|
  {
    exists i: nat :: LastSet(Asked(log)[..n], i, k, v)
  }

  lemma StoredBefore(log: seq<LogEntry>, n: nat, k: string, v: string)
    requires n <= |log|
    ensures Holds(log, n, k, v) <==> k in StateOf(log[..n]) && StateOf(log[..n])[k] == v
  {
    StoreOfLog(log[..n]);
    assert Asked(log)[..n] == Asked(log[..n]);
    StoredIffLastSet(Asked(log[..n]), k, v);
  }

  /** The reply to `get k` is the value of the last `set k` before it with no `del k` or `flush` in between,
      and "NULL" if there is none. */
  lemma GetAnswered(rule: ArenaImage.TailRule, log: seq<LogEntry>, n: nat, k: string)
    requires Faithful(rule, log) && n < |log| && Tokens(log[n].exchange.request) == ["get", k]
    ensures forall v :: Holds(log, n, k, v) ==> log[n].exchange.reply == v
    ensures (forall v :: !Holds(log, n, k, v)) ==> log[n].exchange.reply == "NULL"
  {
    hide Execute, Tokens, Holds, StateOf;
    assert FaithfulAt(rule, log, n);
    var m := StateOf(log[..n]);
    GetReply(m, log[n].exchange.request, k);
    forall v ensures Holds(log, n, k, v) <==> k in m && m[k] == v {
      StoredBefore(log, n, k, v);
    }
    if k in m {
      assert Holds(log, n, k, m[k]);
    }
  }

  /** The reply to `del k` is "OK" if the key held a value by then, and "NULL" if not. */
  lemma DelAnswered(rule: ArenaImage.TailRule, log: seq<LogEntry>, n: nat, k: string)
    requires Faithful(rule, log) && n < |log| && Tokens(log[n].exchange.request) == ["del", k]
    ensures log[n].exchange.reply == if exists v :: Holds(log, n, k, v) then "OK" else "NULL"
  {
    hide Execute, Tokens, Holds, StateOf;
    assert FaithfulAt(rule, log, n);
    var m := StateOf(log[..n]);
    DelReply(m, log[n].exchange.request, k);
    forall v ensures Holds(log, n, k, v) <==> k in m && m[k] == v {
      StoredBefore(log, n, k, v);
    }
    if k in m {
      assert Holds(log, n, k, m[k]);
    }
  }

  /** The replies that do not depend on what came before. */
  lemma OthersAnswered(rule: ArenaImage.TailRule, log: seq<LogEntry>, n: nat)
    requires Faithful(rule, log) && n < |log|
    ensures var (words, reply) := (Tokens(log[n].exchange.request), log[n].exchange.reply);
            && (words == ["ping"] ==> reply == "pong")
            && (words == ["flush"] || (|words| == 3 && words[0] == "set") ==> reply == "OK")
            && (words == [] ==> reply == "Empty input")
            && (words != [] && !Named(words[0]) ==> reply == "No such command '" + words[0] + "'")
            && (words != [] && Named(words[0]) && !WellSaid(words) ==>
                  reply == "Invalid number of args for command '" + words[0] + "'")
  {
    hide Execute, Tokens, StateOf;
    assert FaithfulAt(rule, log, n);
    var (m, request) := (StateOf(log[..n]), log[n].exchange.request);
    var words := Tokens(request);
    ErrorReply(m, request);
    if words == ["ping"] {
      PingReply(m, request);
    } else if words == ["flush"] {
      FlushReply(m, request);
    } else if |words| == 3 && words[0] == "set" {
      SetReply(m, request, words[1], words[2]);
    }
  }

  // ----- the calls behind the log

  /** The reply of every recorded call is what the plain map gives after the requests of all calls before it. */
  lemma {:induction false} CallReplies(rule: ArenaImage.TailRule, calls: seq<Call>, log: seq<LogEntry>,
                                       ever: set<ClientConnection>, i: nat)
    requires Recorded(rule, calls, log, ever) && i < |calls| && calls[i].entry.Some?
    ensures var e := calls[i].entry.value;
            e.reply == Execute(StateOf(LogOf(calls[..i])), e.request).0.output
  {
    hide Execute, StateOf, Proper;
    LogSplits(calls, i);
    var n := |LogOf(calls[..i])|;
    assert FaithfulAt(rule, log, n);
    assert log[..n] == LogOf(calls[..i]);
  }

  /** The log up to a call is a prefix of the log, and goes on with what the call completed. */
  lemma {:induction false} LogSplits(calls: seq<Call>, i: nat)
    requires i < |calls|
    ensures LogOf(calls[..i]) + Logged(calls[i]) <= LogOf(calls)
    decreases |calls|
  {
    var n := |calls| - 1;
    if i < n {
      LogSplits(calls[..n], i);
      assert calls[..n][..i] == calls[..i];
    }
  }
}
