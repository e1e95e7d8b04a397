/** Splitting a request into words (server/src/executor.cpp:35-61). */
module Tokenizer {
  predicate IsWhitespace(c: char) {
    c == ' ' || c == '\t' || c == '\n' || c == '\r' || c == '\U{0C}' || c == '\U{0B}'
  }

  /** Space, tab, line feed, vertical tab, form feed and carriage return. */
  lemma WhitespaceCodes(c: char)
    ensures IsWhitespace(c) <==> c as int == 32 || 9 <= c as int <= 13
  {
  }

  predicate AllSpace(s: string) {
    forall i :: 0 <= i < |s| ==> IsWhitespace(s[i])
  }

  predicate IsWord(s: string) {
    s != "" && forall i :: 0 <= i < |s| ==> !IsWhitespace(s[i])
  }

  /** How many characters of `s` come before its first white space. */
  function WordLength(s: string): (n: nat)
    ensures n <= |s|
    ensures forall i :: 0 <= i < n ==> !IsWhitespace(s[i])
    ensures n < |s| ==> IsWhitespace(s[n])
  {
    if s == "" || IsWhitespace(s[0]) then 0 else 1 + WordLength(s[1..])
  }

  /** The words of a request, in order. */
  function Tokens(s: string): (ts: seq<string>)
    ensures forall i :: 0 <= i < |ts| ==> IsWord(ts[i])
    decreases |s|
  {
    if s == "" then []
    else if IsWhitespace(s[0]) then Tokens(s[1..])
    else [s[..WordLength(s)]] + Tokens(s[WordLength(s)..])
  }

  lemma {:induction false} TokensSkip(space: string, s: string)
    requires AllSpace(space)
    ensures Tokens(space + s) == Tokens(s)
    decreases |space|
  {
    if space == "" {
      assert space + s == s;
    } else {
      assert (space + s)[1..] == space[1..] + s;
      TokensSkip(space[1..], s);
    }
  }

  lemma {:induction false} WordLengthIs(word: string, rest: string)
    requires forall i :: 0 <= i < |word| ==> !IsWhitespace(word[i])
    requires rest == "" || IsWhitespace(rest[0])
    ensures WordLength(word + rest) == |word|
  {
    var s := word + rest;
    assert forall i :: 0 <= i < |word| ==> s[i] == word[i];
    assert rest != "" ==> IsWhitespace(s[|word|]);
  }

  lemma TokensWord(word: string, rest: string)
    requires IsWord(word) && (rest == "" || IsWhitespace(rest[0]))
    ensures Tokens(word + rest) == [word] + Tokens(rest)
  {
    WordLengthIs(word, rest);
    assert (word + rest)[..|word|] == word && (word + rest)[|word|..] == rest;
  }

  method NextToken(input: string, position: nat) returns (token: string, next: nat)
    requires position <= |input|
    ensures position <= next <= |input|
    ensures token == "" ==> next == |input| && Tokens(input[position..]) == []
    ensures token != "" ==> next > position && Tokens(input[position..]) == [token] + Tokens(input[next..])
  {
    hide Tokens;
    next := position;
    while next < |input| && IsWhitespace(input[next])
      invariant position <= next <= |input|
      invariant forall i :: position <= i < next ==> IsWhitespace(input[i])
    {
      next := next + 1;
    }
    var begin := next;
    while next < |input| && !IsWhitespace(input[next])
      invariant begin <= next <= |input|
      invariant forall i :: begin <= i < next ==> !IsWhitespace(input[i])
    {
      next := next + 1;
    }
    token := input[begin..next];
    TokenAt(input, position, begin, next);
  }

  lemma TokenAt(input: string, position: nat, begin: nat, next: nat)
    requires position <= begin <= next <= |input|
    requires forall i :: position <= i < begin ==> IsWhitespace(input[i])
    requires forall i :: begin <= i < next ==> !IsWhitespace(input[i])
    requires next < |input| ==> IsWhitespace(input[next])
    requires begin < |input| ==> begin < next
    ensures Tokens(input[position..]) ==
            if begin < next then [input[begin..next]] + Tokens(input[next..]) else []
  {
    hide Tokens;
    var (gap, word, rest) := (input[position..begin], input[begin..next], input[next..]);
    assert AllSpace(gap);
    assert input[position..] == gap + input[begin..];
    assert input[begin..] == word + rest;
    TokensSkip(gap, input[begin..]);
    if begin < next {
      TokensWord(word, rest);
    } else {
      assert input[begin..] == "";
      NoTokens();
    }
  }

  lemma NoTokens()
    ensures Tokens("") == []
  {
  }

  // ----- any way of writing the words down

  /** `words` with `gaps[0]` in front and `gaps[i + 1]` after word `i`. */
  function Spaced(words: seq<string>, gaps: seq<string>): string
    requires |gaps| == |words| + 1
    decreases |words|
  {
    if words == [] then gaps[0] else gaps[0] + (words[0] + Spaced(words[1..], gaps[1..]))
  }

  /** All gaps are white space, and only the outer two may be empty. */
  predicate Gaps(gaps: seq<string>) {
    && (forall i :: 0 <= i < |gaps| ==> AllSpace(gaps[i]))
    && (forall i :: 0 < i < |gaps| - 1 ==> gaps[i] != "")
  }

  /** However a request is spaced, its words are recovered. */
  lemma {:induction false} TokensSpaced(words: seq<string>, gaps: seq<string>)
    requires |gaps| == |words| + 1 && Gaps(gaps)
    requires forall i :: 0 <= i < |words| ==> IsWord(words[i])
    ensures Tokens(Spaced(words, gaps)) == words
    decreases |words|
  {
    if words == [] {
      TokensSkip(gaps[0], "");
      assert gaps[0] + "" == gaps[0];
    } else {
      var rest := Spaced(words[1..], gaps[1..]);
      TokensSpaced(words[1..], gaps[1..]);
      if |words| > 1 {
        assert gaps[1] != "" && rest[0] == gaps[1][0];
      } else if gaps[1] != "" {
        assert rest == gaps[1];
      }
      TokensWord(words[0], rest);
      TokensSkip(gaps[0], words[0] + rest);
    }
  }

  // ----- sizes

  function TotalSize(words: seq<string>): nat {
    if words == [] then 0 else |words[0]| + TotalSize(words[1..])
  }

  /** The words and at least one character between any two of them fit in the request. */
  lemma {:induction false} TokensFit(s: string)
    ensures Tokens(s) != [] ==> TotalSize(Tokens(s)) + |Tokens(s)| - 1 <= |s|
    decreases |s|
  {
    if s != "" {
      if IsWhitespace(s[0]) {
        TokensFit(s[1..]);
      } else {
        var n := WordLength(s);
        var rest := s[n..];
        if rest != "" {
          TokensFit(rest[1..]);
          assert Tokens(rest) == Tokens(rest[1..]);
        }
        assert Tokens(s)[1..] == Tokens(rest);
      }
    }
  }
}
