/**
 * A connected stream socket, seen from one end.  `incoming` is everything the peer will
 * still send before it closes; `recvs` and `sends` are arbitrary schedules that decide how
 * much each system call moves and when it fails.  A schedule that has run out would block.
 */
module Sockets {
  datatype Errno = Interrupted | WouldBlock | Broken

  datatype Event =
    | Move(limit: nat)  // up to limit + 1 bytes
    | Refuse            // send returns 0; for recv the same as Fail(Broken)
    | Fail(errno: Errno)

  datatype RecvResult = Received(bytes: string) | EndOfFile | RecvFailed(errno: Errno)
  datatype SendResult = Accepted(count: nat) | Refused | SendFailed(errno: Errno)

  function Min(x: nat, y: nat): nat {
    if x <= y then x else y
  }

  // ----- what a stretch of a schedule amounts to

  /** How many system calls of the schedule move bytes. */
  function Moves(schedule: seq<Event>): nat {
    if schedule == [] then 0
    else (if schedule[0].Move? then 1 else 0) + Moves(schedule[1..])
  }

  /** The event makes progress, or the call is simply made again. */
  predicate Smooth(e: Event) {
    e.Move? || e == Fail(Interrupted)
  }

  predicate Breaks(e: Event) {
    e == Refuse || e == Fail(Broken)
  }

  predicate CanBreak(schedule: seq<Event>) {
    Refuse in schedule || Fail(Broken) in schedule
  }

  predicate AllSmooth(schedule: seq<Event>) {
    forall e :: e in schedule ==> Smooth(e)
  }

  predicate Tail(before: seq<Event>, after: seq<Event>) {
    |after| <= |before| && after == before[|before| - |after|..]
  }

  /** Only smooth events lie between the two. */
  predicate Runs(before: seq<Event>, after: seq<Event>) {
    && Tail(before, after)
    && forall i :: 0 <= i < |before| - |after| ==> Smooth(before[i])
  }

  /** Smooth events, and then one that would block, or the end of the schedule. */
  predicate Waits(before: seq<Event>, after: seq<Event>) {
    || (after == [] && Runs(before, after))
    || (|after| < |before| && before[|before| - |after| - 1] == Fail(WouldBlock)
        && Runs(before, before[|before| - |after| - 1..]) && Tail(before, after))
  }

  /** Smooth events, and then one that breaks the connection. */
  predicate Broke(before: seq<Event>, after: seq<Event>) {
    && |after| < |before| && Breaks(before[|before| - |after| - 1])
    && Runs(before, before[|before| - |after| - 1..]) && Tail(before, after)
  }

  /** `e` is the last event of the stretch. */
  predicate Met(before: seq<Event>, after: seq<Event>, e: Event) {
    |after| < |before| && before[|before| - |after| - 1] == e
  }

  /** One more event of a stretch that has been smooth so far. */
  lemma RunsStep(before: seq<Event>, mid: seq<Event>)
    requires Runs(before, mid)
    ensures mid == [] ==> Waits(before, mid)
    ensures mid != [] && Smooth(mid[0]) ==> Runs(before, mid[1..])
    ensures mid != [] && mid[0] == Fail(WouldBlock) ==> Waits(before, mid[1..])
    ensures mid != [] && Breaks(mid[0]) ==> Broke(before, mid[1..])
  {
    if mid != [] {
      var n := |before| - |mid|;
      assert mid[0] == before[n] && mid[1..] == before[n + 1..] && mid == before[n..];
    }
  }

  lemma NoMoves()
    ensures Moves([]) == 0
  {
  }

  lemma NoEvents(before: seq<Event>)
    ensures Runs(before, before)
  {
  }

  lemma RunsOn(before: seq<Event>, mid: seq<Event>, after: seq<Event>)
    requires Runs(before, mid)
    ensures Runs(mid, after) ==> Runs(before, after)
    ensures Waits(mid, after) ==> Waits(before, after)
    ensures Broke(mid, after) ==> Broke(before, after)
  {
    if Runs(mid, after) {
      RunsTwice(before, mid, after);
    }
    if |after| < |mid| && Tail(mid, after) {
      var (n, k) := (|before| - |mid|, |mid| - |after| - 1);
      assert mid[k..] == before[n + k..] && mid[k] == before[n + k] && after == before[n + k + 1..];
      if Runs(mid, mid[k..]) {
        RunsTwice(before, mid, mid[k..]);
      }
    }
  }

  lemma RunsTwice(before: seq<Event>, mid: seq<Event>, after: seq<Event>)
    requires Runs(before, mid) && Runs(mid, after)
    ensures Runs(before, after)
  {
    var (m, n) := (|before| - |mid|, |before| - |after|);
    forall i | 0 <= i < n ensures Smooth(before[i]) {
      if i >= m {
        assert before[i] == mid[i - m];
      }
    }
  }

  /** A schedule that cannot break does not break later, one without would-blocks does not wait early. */
  lemma TailKeeps(before: seq<Event>, after: seq<Event>)
    requires Tail(before, after)
    ensures CanBreak(after) ==> CanBreak(before)
    ensures AllSmooth(before) ==> AllSmooth(after)
    ensures Broke(before, after) ==> CanBreak(before)
    ensures AllSmooth(before) && Waits(before, after) ==> after == []
    ensures AllSmooth(before) ==> !CanBreak(before)
  {
    if |after| < |before| {
      assert before[|before| - |after| - 1] in before;
    }
  }

  /** A blocking call gives up where the schedule breaks, would block or ends. */
  predicate GivesUp(before: seq<Event>, after: seq<Event>) {
    Broke(before, after) || Waits(before, after)
  }

  lemma Tries(before: seq<Event>, mid: seq<Event>, after: seq<Event>)
    requires Runs(before, mid) && (Runs(mid, after) || GivesUp(mid, after))
    ensures Runs(mid, after) ==> Runs(before, after)
    ensures GivesUp(mid, after) ==> GivesUp(before, after)
  {
    RunsOn(before, mid, after);
  }

  /** A schedule of smooth events is given up only at its end. */
  lemma GivenUp(before: seq<Event>, after: seq<Event>)
    requires GivesUp(before, after)
    ensures AllSmooth(before) ==> Moves(after) == 0
  {
    TailKeeps(before, after);
  }

  class Socket {
    var incoming: string
    var sent: string
    var recvs: seq<Event>
    var sends: seq<Event>
    ghost var taken: string  // everything received so far

    constructor (incoming: string, recvs: seq<Event>, sends: seq<Event>)
      ensures this.incoming == incoming && this.recvs == recvs && this.sends == sends
      ensures sent == "" && taken == ""
    {
      this.incoming, this.recvs, this.sends := incoming, recvs, sends;
      sent, taken := "", "";
    }

    method Recv(size: nat) returns (r: RecvResult)
      requires size > 0
      modifies this`incoming, this`recvs, this`taken
      ensures old(recvs) == [] ==> r == RecvFailed(WouldBlock) && recvs == []
      ensures old(recvs) != [] ==> recvs == old(recvs)[1..]
      ensures old(recvs) != [] ==>
                match old(recvs)[0]
                case Fail(errno) => r == RecvFailed(errno)
                case Refuse => r == RecvFailed(Broken)
                case Move(_) => if old(incoming) == "" then r == EndOfFile else r.Received?
      ensures r.Received? ==>
                && 0 < |r.bytes| <= size
                && old(incoming) == r.bytes + incoming
                && taken == old(taken) + r.bytes
      ensures !r.Received? ==> incoming == old(incoming) && taken == old(taken)
      ensures Moves(old(recvs)) == Moves(recvs) + if r.RecvFailed? then 0 else 1
    {
      if recvs == [] {
        return RecvFailed(WouldBlock);
      }
      var event := recvs[0];
      recvs := recvs[1..];
      match event
      case Fail(errno) => return RecvFailed(errno);
      case Refuse => return RecvFailed(Broken);
      case Move(limit) =>
        if incoming == "" {
          return EndOfFile;
        }
        var n := Min(limit + 1, Min(size, |incoming|));
        r := Received(incoming[..n]);
        taken := taken + incoming[..n];
        incoming := incoming[n..];
    }

    method Send(bytes: string) returns (r: SendResult)
      requires bytes != ""
      modifies this`sent, this`sends
      ensures old(sends) == [] ==> r == SendFailed(WouldBlock) && sends == []
      ensures old(sends) != [] ==> sends == old(sends)[1..]
      ensures old(sends) != [] ==>
                match old(sends)[0]
                case Fail(errno) => r == SendFailed(errno)
                case Refuse => r == Refused
                case Move(_) => r.Accepted?
      ensures r.Accepted? ==> 0 < r.count <= |bytes| && sent == old(sent) + bytes[..r.count]
      ensures !r.Accepted? ==> sent == old(sent)
      ensures Moves(old(sends)) == Moves(sends) + if r.Accepted? then 1 else 0
    {
      if sends == [] {
        return SendFailed(WouldBlock);
      }
      var event := sends[0];
      sends := sends[1..];
      match event
      case Fail(errno) => return SendFailed(errno);
      case Refuse => return Refused;
      case Move(limit) =>
        var n := Min(limit + 1, |bytes|);
        sent := sent + bytes[..n];
        return Accepted(n);
    }
  }
}
