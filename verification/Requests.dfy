/** What each request is answered and what it leaves in the store (server/src/command.cpp:5-41,
    server/src/executor.cpp:70-118), stated on the words of the request. */
module Requests {
  import opened Tokenizer
  import opened Executor

  lemma PingReply(m: map<string, string>, input: string)
    requires Tokens(input) == ["ping"]
    ensures Execute(m, input) == (CommandResult(false, false, "pong"), m)
  {
    hide Tokens;
  }

  lemma GetReply(m: map<string, string>, input: string, k: string)
    requires Tokens(input) == ["get", k]
    ensures Execute(m, input).1 == m
    ensures var r := Execute(m, input).0;
            && !r.stop && !r.error
            && (k in m ==> r.output == m[k]) && (k !in m ==> r.output == "NULL")
  {
    hide Tokens;
  }

  lemma SetReply(m: map<string, string>, input: string, k: string, v: string)
    requires Tokens(input) == ["set", k, v]
    ensures Execute(m, input).0 == CommandResult(false, false, "OK")
    ensures var m' := Execute(m, input).1;
            && k in m' && m'[k] == v
            && forall q :: q != k ==> (q in m' <==> q in m) && (q in m ==> m'[q] == m[q])
  {
    hide Tokens;
  }

  lemma DelReply(m: map<string, string>, input: string, k: string)
    requires Tokens(input) == ["del", k]
    ensures var r := Execute(m, input).0;
            && !r.stop && !r.error
            && (k in m ==> r.output == "OK") && (k !in m ==> r.output == "NULL")
    ensures var m' := Execute(m, input).1;
            && k !in m'
            && forall q :: q != k ==> (q in m' <==> q in m) && (q in m ==> m'[q] == m[q])
  {
    hide Tokens;
  }

  lemma FlushReply(m: map<string, string>, input: string)
    requires Tokens(input) == ["flush"]
    ensures Execute(m, input) == (CommandResult(false, false, "OK"), map[])
  {
    hide Tokens;
  }

  lemma ExitReply(m: map<string, string>, input: string)
    requires Tokens(input) == ["exit"]
    ensures Execute(m, input) == (CommandResult(true, false, ""), m)
  {
    hide Tokens;
  }

  /** One of the six commands, with its number of words. */
  predicate WellSaid(words: seq<string>) {
    || words == ["ping"] || words == ["flush"] || words == ["exit"]
    || (|words| == 2 && (words[0] == "get" || words[0] == "del"))
    || (|words| == 3 && words[0] == "set")
  }

  predicate Named(name: string) {
    name in ["exit", "ping", "get", "set", "del", "flush"]
  }

  /** Any other request is an error that says what is wrong, and changes nothing; and no well-said request is one. */
  lemma ErrorReply(m: map<string, string>, input: string)
    ensures Execute(m, input).0.error <==> !WellSaid(Tokens(input))
    ensures !WellSaid(Tokens(input)) ==>
              var words := Tokens(input);
              && Execute(m, input).1 == m && !Execute(m, input).0.stop
              && Execute(m, input).0.output ==
                 if words == [] then "Empty input"
                 else if Named(words[0]) then "Invalid number of args for command '" + words[0] + "'"
                 else "No such command '" + words[0] + "'"
  {
    hide Tokens;
    var words := Tokens(input);
    if words != [] {
      assert words == [words[0]] + words[1..];
    }
  }

  /** However the two requests are spaced: what was set is what is got. */
  lemma SetThenGet(m: map<string, string>, k: string, v: string, g: seq<string>, h: seq<string>)
    requires IsWord(k) && IsWord(v) && |g| == 4 && |h| == 3 && Gaps(g) && Gaps(h)
    ensures var m' := Execute(m, Spaced(["set", k, v], g)).1;
            Execute(m', Spaced(["get", k], h)).0.output == v
  {
    hide Tokens, Execute, Spaced;
    TokensSpaced(["set", k, v], g);
    TokensSpaced(["get", k], h);
    SetReply(m, Spaced(["set", k, v], g), k, v);
    GetReply(Execute(m, Spaced(["set", k, v], g)).1, Spaced(["get", k], h), k);
  }

  // ----- runs

  /** The store after requests executed one after the other. */
  function StoreAfter(requests: seq<string>): map<string, string> {
    if requests == [] then map[]
    else Execute(StoreAfter(requests[..|requests| - 1]), requests[|requests| - 1]).1
  }

  /** The request stores, removes or flushes what is under `k`. */
  predicate Touches(request: string, k: string) {
    var words := Tokens(request);
    words == ["flush"] || words == ["del", k] || (|words| == 3 && words[0] == "set" && words[1] == k)
  }

  /** Request `i` sets `k` to `v`, and no later one touches `k`. */
  ghost predicate LastSet(requests: seq<string>, i: nat, k: string, v: string) {
    && i < |requests| && Tokens(requests[i]) == ["set", k, v]
    && forall j :: i < j < |requests| ==> !Touches(requests[j], k)
  }

  lemma TouchesStep(m: map<string, string>, request: string, k: string)
    ensures var m' := Execute(m, request).1;
            && (!Touches(request, k) ==> (k in m' <==> k in m) && (k in m ==> m'[k] == m[k]))
            && (Touches(request, k) && k in m' ==> Tokens(request) == ["set", k, m'[k]])
            && (forall v :: Tokens(request) == ["set", k, v] ==> k in m' && m'[k] == v)
  {
    hide Execute;
    var words := Tokens(request);
    ErrorReply(m, request);
    if |words| == 1 && WellSaid(words) {
      if words == ["ping"] {
        PingReply(m, request);
      } else if words == ["flush"] {
        FlushReply(m, request);
      } else {
        ExitReply(m, request);
      }
    } else if |words| == 2 && WellSaid(words) {
      if words[0] == "get" {
        GetReply(m, request, words[1]);
      } else {
        DelReply(m, request, words[1]);
      }
    } else if WellSaid(words) {
      SetReply(m, request, words[1], words[2]);
    }
  }

  /** A key is stored with a value exactly when the last request to touch it set it to that value. */
  lemma {:induction false} StoredIffLastSet(requests: seq<string>, k: string, v: string)
    ensures (k in StoreAfter(requests) && StoreAfter(requests)[k] == v) <==> exists i: nat :: LastSet(requests, i, k, v)
  {
    hide Tokens, Execute, Touches;
    if requests != [] {
      var n := |requests| - 1;
      var (before, last) := (requests[..n], requests[n]);
      StoredIffLastSet(before, k, v);
      TouchesStep(StoreAfter(before), last, k);
      if i: nat :| LastSet(requests, i, k, v) && i < n {
        assert LastSet(before, i, k, v);
      }
      if Touches(last, k) {
        if Tokens(last) == ["set", k, v] {
          assert LastSet(requests, n, k, v);
        }
      } else {
        if i: nat :| LastSet(before, i, k, v) {
          assert LastSet(requests, i, k, v);
        }
        assert Tokens(last) == ["set", k, v] ==> false by {
          SetTouches(last, k, v);
        }
      }
    }
  }

  lemma SetTouches(request: string, k: string, v: string)
    ensures Tokens(request) == ["set", k, v] ==> Touches(request, k)
  {
  }
}
