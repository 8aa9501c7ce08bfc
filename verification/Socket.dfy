/**
  Blocking transfers built from partial ones: `sendB` and `receiveB` against an
  operating system that accepts or hands over any number of bytes per call,
  none at all, or fails.
*/
module Sockets {
  import opened Common

  // ---------------------------------------------------------------------
  // The operating system

  /**
    What the OS answers to the t-th call of a socket: negative for an error, 0
    for "would block", otherwise how many bytes it is willing to move.
  */
  type Schedule = nat -> int

  /** The result of `sendNb` or `receiveNb`. */
  function Chunk(raw: int, remaining: nat): (res: int)
    ensures -1 <= res <= remaining
  {
    if raw < 0 then -1 else if raw > remaining then remaining else raw
  }

  function Min(a: int, b: int): int { if a < b then a else b }

  /** How many of `target` bytes the calls `from`, ..., `end - 1` move, errors moving none. */
  function Moved(schedule: Schedule, from: nat, end: nat, target: nat): (n: nat)
    requires from <= end
    ensures n <= target
    decreases end
  {
    if from == end then 0 else
    var n := Moved(schedule, from, end - 1, target);
    n + if schedule(end - 1) < 0 then 0 else Chunk(schedule(end - 1), target - n)
  }

  /** How many bytes the OS is willing to move in these calls, however many are asked for. */
  function Willing(schedule: Schedule, from: nat, end: nat): nat
    requires from <= end
    decreases end
  {
    if from == end then 0 else
    Willing(schedule, from, end - 1) + if schedule(end - 1) < 0 then 0 else schedule(end - 1)
  }

  /** Asking chunk by chunk for what is still missing moves all the OS is willing to move, up to the target. */
  lemma {:induction false} MovedIsSum(schedule: Schedule, from: nat, end: nat, target: nat)
    requires from <= end
    ensures Moved(schedule, from, end, target) == Min(target, Willing(schedule, from, end))
    decreases end
  {
    if from < end {
      MovedIsSum(schedule, from, end - 1, target);
    }
  }

  /**
    The calls made by one blocking transfer: as long as bytes are missing and
    nothing failed, and not one more.
  */
  ghost predicate Transferred(schedule: Schedule, from: nat, end: nat, target: nat, ok: bool) {
    && from <= end
    && (ok <==> Moved(schedule, from, end, target) == target)
    && (!ok <==> from < end && schedule(end - 1) < 0)
    && (forall t :: from <= t < end - 1 ==> schedule(t) >= 0)
    && (forall t :: from <= t < end ==> Moved(schedule, from, t, target) < target)
  }

  /** A transfer that goes on: `count` bytes moved by successful calls, some still missing before each. */
  ghost predicate UnderWay(schedule: Schedule, from: nat, now: nat, target: nat, count: nat) {
    && from <= now && count <= target
    && count == Moved(schedule, from, now, target)
    && (forall t :: from <= t < now ==> schedule(t) >= 0)
    && (forall t :: from <= t < now ==> Moved(schedule, from, t, target) < target)
  }

  lemma UnderWayStep(schedule: Schedule, from: nat, now: nat, target: nat, count: nat)
    requires UnderWay(schedule, from, now, target, count) && count < target
    ensures var res := Chunk(schedule(now), target - count);
      if res < 0
      then Transferred(schedule, from, now + 1, target, false) && Moved(schedule, from, now + 1, target) == count
      else UnderWay(schedule, from, now + 1, target, count + res)
  {
  }

  lemma UnderWayEnds(schedule: Schedule, from: nat, now: nat, target: nat, count: nat)
    requires UnderWay(schedule, from, now, target, count) && count == target
    ensures Transferred(schedule, from, now, target, true) && Moved(schedule, from, now, target) == count
  {
  }

  lemma {:induction false} MovedMonotone(schedule: Schedule, from: nat, t: nat, end: nat, target: nat)
    requires from <= t <= end
    ensures Moved(schedule, from, t, target) <= Moved(schedule, from, end, target)
    decreases end
  {
    if t < end {
      MovedMonotone(schedule, from, t, end - 1, target);
    }
  }

  /** The verdict and the calls of a blocking transfer, in terms of the OS's answers alone. */
  lemma TransferMeans(schedule: Schedule, from: nat, end: nat, target: nat, ok: bool)
    requires Transferred(schedule, from, end, target, ok)
    ensures ok <==> Willing(schedule, from, end) >= target
    ensures forall t :: from <= t < end ==> Willing(schedule, from, t) < target
    ensures FailsAtMostLast(schedule, from, end, ok)
  {
    MovedIsSum(schedule, from, end, target);
    forall t | from <= t < end
      ensures Willing(schedule, from, t) < target
    {
      MovedIsSum(schedule, from, t, target);
      assert Moved(schedule, from, t, target) < target;
    }
    hide Moved, Willing;
  }

  /** All of these calls succeeded, or exactly the last one failed. */
  ghost predicate FailsAtMostLast(schedule: Schedule, from: nat, end: nat, ok: bool) {
    if ok then forall t: nat :: from <= t < end ==> schedule(t) >= 0
    else from < end && schedule(end - 1) < 0 && forall t: nat :: from <= t < end - 1 ==> schedule(t) >= 0
  }

  // ---------------------------------------------------------------------
  // Termination

  /** The transfer comes to an end, one way or the other. */
  ghost predicate Terminates(schedule: Schedule, from: nat, target: nat) {
    exists end: nat, ok :: Transferred(schedule, from, end, target, ok)
  }

  /** While the transfer goes on its end is still ahead. */
  lemma EndAhead(schedule: Schedule, from: nat, now: nat, end: nat, target: nat, count: nat, ok: bool)
    requires UnderWay(schedule, from, now, target, count) && count < target
    requires Transferred(schedule, from, end, target, ok)
    ensures now < end
  {
  }

  lemma {:induction false} StillGoing(schedule: Schedule, from: nat, now: nat, target: nat)
    requires from <= now && !Terminates(schedule, from, target)
    ensures var count := Moved(schedule, from, now, target);
      UnderWay(schedule, from, now, target, count) && count < target
    decreases now
  {
    if now == from {
      assert target == 0 ==> Transferred(schedule, from, from, target, true);
    } else {
      StillGoing(schedule, from, now - 1, target);
      var count := Moved(schedule, from, now - 1, target);
      UnderWayStep(schedule, from, now - 1, target, count);
      if Moved(schedule, from, now, target) == target {
        UnderWayEnds(schedule, from, now, target, target);
      }
    }
  }

  /** After these calls, all of them successful, bytes are still missing. */
  ghost predicate GoesOn(schedule: Schedule, from: nat, now: nat, target: nat) {
    from <= now
    && var count := Moved(schedule, from, now, target);
       UnderWay(schedule, from, now, target, count) && count < target
  }

  /** The condition is exact: otherwise the loop goes on after any number of calls. */
  lemma LoopsForeverExactly(schedule: Schedule, from: nat, target: nat)
    ensures !Terminates(schedule, from, target) <==>
      (forall now: nat :: from <= now ==> GoesOn(schedule, from, now, target))
  {
    if Terminates(schedule, from, target) {
      var end: nat, ok :| Transferred(schedule, from, end, target, ok);
      var count := Moved(schedule, from, end, target);
      if GoesOn(schedule, from, end, target) {
        EndAhead(schedule, from, end, end, target, count, ok);
        assert false;
      }
    } else {
      forall now: nat | from <= now
        ensures GoesOn(schedule, from, now, target)
      {
        StillGoing(schedule, from, now, target);
      }
    }
  }

  ghost predicate MovesWithin(schedule: Schedule, t: nat, k: nat) {
    exists j: nat :: t <= j < t + k && schedule(j) != 0
  }

  /** The OS never says "would block" k times in a row. */
  ghost predicate Fair(schedule: Schedule, k: nat) {
    forall t: nat :: MovesWithin(schedule, t, k)
  }

  lemma NextMove(schedule: Schedule, t: nat, k: nat) returns (j: nat)
    requires Fair(schedule, k)
    ensures t <= j && schedule(j) != 0
  {
    assert MovesWithin(schedule, t, k);
    j :| t <= j < t + k && schedule(j) != 0;
  }

  /** With bounded stuttering the measure (missing bytes, calls until the next answer) decreases. */
  lemma {:induction false} FairStep(schedule: Schedule, from: nat, now: nat, target: nat, count: nat, k: nat, next: nat)
    requires Fair(schedule, k) && now <= next && schedule(next) != 0
    requires UnderWay(schedule, from, now, target, count)
    ensures Terminates(schedule, from, target)
    decreases target - count, next - now
  {
    if count == target {
      UnderWayEnds(schedule, from, now, target, count);
    } else {
      UnderWayStep(schedule, from, now, target, count);
      var res := Chunk(schedule(now), target - count);
      if res == 0 {
        FairStep(schedule, from, now + 1, target, count, k, next);
      } else if res > 0 {
        var next' := NextMove(schedule, now + 1, k);
        FairStep(schedule, from, now + 1, target, count + res, k, next');
      }
    }
  }

  /** If the OS never stutters k times in a row, every transfer terminates. */
  lemma FairTerminates(schedule: Schedule, from: nat, target: nat, k: nat)
    requires Fair(schedule, k)
    ensures Terminates(schedule, from, target)
  {
    var next := NextMove(schedule, from, k);
    FairStep(schedule, from, from, target, 0, k, next);
  }

  // ---------------------------------------------------------------------
  // Sockets over one-directional byte pipes

  /**
    All bytes that are written into one direction of a connection. How many of
    them have arrived by the time of a call is up to the receiver's schedule.
  */
  class Pipe {
    var bytes: Str

    constructor ()
      ensures bytes == []
    {
      bytes := [];
    }
  }

  class Socket {
    const schedule: Schedule
    const outgoing: Pipe
    const incoming: Pipe
    var calls: nat
    var taken: nat

    constructor (schedule: Schedule, outgoing: Pipe, incoming: Pipe)
      ensures this.schedule == schedule && this.outgoing == outgoing && this.incoming == incoming
      ensures calls == 0 && taken == 0
    {
      this.schedule, this.outgoing, this.incoming := schedule, outgoing, incoming;
      calls, taken := 0, 0;
    }

    method SendNb(data: Str) returns (res: int)
      modifies this`calls, outgoing
      ensures calls == old(calls) + 1
      ensures res == Chunk(schedule(old(calls)), |data|)
      ensures outgoing.bytes == old(outgoing.bytes) + if res < 0 then [] else data[..res]
    {
      res := Chunk(schedule(calls), |data|);
      calls := calls + 1;
      if res >= 0 {
        outgoing.bytes := outgoing.bytes + data[..res];
      }
    }

    /** One more chunk behind the bytes sent so far. */
    method SendNext(data: Str, currCount: nat, ghost before: Str) returns (res: int)
      requires currCount <= |data| && outgoing.bytes == before + data[..currCount]
      modifies this`calls, outgoing
      ensures calls == old(calls) + 1
      ensures res == Chunk(schedule(old(calls)), |data| - currCount)
      ensures outgoing.bytes == before + data[..currCount + if res < 0 then 0 else res]
    {
      res := SendNb(data[currCount..]);
      if res >= 0 {
        SentGrows(before, data, currCount, res);
      }
    }

    /**
      Returns true after the OS took all of `data`, false after an error; in
      both cases it took a prefix. Called only where the source's loop ends.
    */
    method SendB(data: Str) returns (ok: bool)
      requires Terminates(schedule, calls, |data|)
      modifies this`calls, outgoing
      ensures Transferred(schedule, old(calls), calls, |data|, ok)
      ensures outgoing.bytes == old(outgoing.bytes) + data[..Moved(schedule, old(calls), calls, |data|)]
      ensures old(outgoing.bytes) <= outgoing.bytes <= old(outgoing.bytes) + data
      ensures ok <==> outgoing.bytes == old(outgoing.bytes) + data
      ensures |outgoing.bytes| == |old(outgoing.bytes)| + Min(|data|, Willing(schedule, old(calls), calls))
      ensures FailsAtMostLast(schedule, old(calls), calls, ok)
    {
      ghost var from := calls;
      ghost var end: nat, final :| Transferred(schedule, from, end, |data|, final);
      var currCount := 0;
      assert UnderWay(schedule, from, calls, |data|, currCount);
      hide UnderWay, Moved, Transferred, Terminates, Willing, FailsAtMostLast, Min;
      while currCount < |data|
        invariant 0 <= currCount <= |data|
        invariant UnderWay(schedule, from, calls, |data|, currCount)
        invariant outgoing.bytes == old(outgoing.bytes) + data[..currCount]
        decreases end - calls
      {
        EndAhead(schedule, from, calls, end, |data|, currCount, final);
        UnderWayStep(schedule, from, calls, |data|, currCount);
        var currSent := SendNext(data, currCount, old(outgoing.bytes));
        if currSent < 0 {
          VerdictMeans(schedule, from, calls, |data|, false);
          PrefixSent(old(outgoing.bytes), data, currCount);
          return false;
        }
        currCount := currCount + currSent;
      }
      UnderWayEnds(schedule, from, calls, |data|, currCount);
      VerdictMeans(schedule, from, calls, |data|, true);
      PrefixSent(old(outgoing.bytes), data, currCount);
      return true;
    }

    /** The OS can only hand over what was written and not yet taken. */
    method ReceiveNb(buf: array<Byte>, at: nat, size: nat) returns (res: int)
      requires at + size <= buf.Length && taken + Chunk(schedule(calls), size) <= |incoming.bytes|
      modifies this, buf
      ensures calls == old(calls) + 1
      ensures res == Chunk(schedule(old(calls)), size)
      ensures res < 0 ==> taken == old(taken) && buf[..] == old(buf[..])
      ensures res >= 0 ==> taken == old(taken) + res && taken <= |incoming.bytes|
      ensures res >= 0 ==> buf[..] == old(buf[..])[..at] + incoming.bytes[old(taken)..taken] + old(buf[..])[at + res..]
    {
      res := Chunk(schedule(calls), size);
      calls := calls + 1;
      if res >= 0 {
        forall i | 0 <= i < res {
          buf[at + i] := incoming.bytes[taken + i];
        }
        taken := taken + res;
      }
    }

    /** One more chunk behind the bytes received so far. */
    method ReceiveNext(buf: array<Byte>, currCount: nat, remaining: nat, ghost start: nat, ghost before: Str)
      returns (res: int)
      requires currCount + remaining <= buf.Length && taken + Chunk(schedule(calls), remaining) <= |incoming.bytes|
      requires Filled(buf[..], incoming.bytes, start, taken, before) && taken == start + currCount
      modifies this, buf
      ensures calls == old(calls) + 1
      ensures res == Chunk(schedule(old(calls)), remaining)
      ensures taken == old(taken) + if res < 0 then 0 else res
      ensures Filled(buf[..], incoming.bytes, start, taken, before)
    {
      ghost var filled := buf[..];
      assert |filled| == |before|;
      hide Filled;
      res := ReceiveNb(buf, currCount, remaining);
      if res >= 0 {
        FilledGrows(incoming.bytes, start, old(taken), taken, filled, buf[..], before);
      }
    }

    /**
      Fills the buffer front with the next bytes of the pipe; after an error only
      a prefix arrived. The peer need not write as much as is asked for: the
      schedule hands over no more than is there, and may then only fail.
    */
    method ReceiveB(buf: array<Byte>, targetCount: nat) returns (ok: bool)
      requires Terminates(schedule, calls, targetCount) && targetCount <= buf.Length
      requires Supplied(schedule, calls, targetCount, |incoming.bytes| - taken)
      modifies this, buf
      ensures Transferred(schedule, old(calls), calls, targetCount, ok)
      ensures taken == old(taken) + Moved(schedule, old(calls), calls, targetCount)
      ensures Filled(buf[..], incoming.bytes, old(taken), taken, old(buf[..]))
      ensures ok <==> taken == old(taken) + targetCount
      ensures taken == old(taken) + Min(targetCount, Willing(schedule, old(calls), calls))
      ensures FailsAtMostLast(schedule, old(calls), calls, ok)
    {
      ghost var from, start, before := calls, taken, buf[..];
      ghost var end: nat, final :| Transferred(schedule, from, end, targetCount, final);
      var currCount := 0;
      assert UnderWay(schedule, from, calls, targetCount, currCount);
      assert Filled(before, incoming.bytes, taken, taken, before);
      hide UnderWay, Moved, Transferred, Filled, Terminates, Supplied, Willing, FailsAtMostLast, Min;
      while currCount < targetCount
        invariant 0 <= currCount <= targetCount
        invariant UnderWay(schedule, from, calls, targetCount, currCount)
        invariant taken == start + currCount
        invariant Filled(buf[..], incoming.bytes, start, taken, before)
        decreases end - calls
      {
        EndAhead(schedule, from, calls, end, targetCount, currCount, final);
        UnderWayStep(schedule, from, calls, targetCount, currCount);
        SuppliedNow(schedule, from, calls, end, targetCount, currCount, final, |incoming.bytes| - start);
        var remaining := targetCount - currCount;
        var currReceive := ReceiveNext(buf, currCount, remaining, start, before);
        if currReceive < 0 {
          VerdictMeans(schedule, from, calls, targetCount, false);
          return false;
        }
        currCount := currCount + currReceive;
      }
      UnderWayEnds(schedule, from, calls, targetCount, currCount);
      VerdictMeans(schedule, from, calls, targetCount, true);
      return true;
    }
  }

  lemma VerdictMeans(schedule: Schedule, from: nat, end: nat, target: nat, ok: bool)
    requires Transferred(schedule, from, end, target, ok)
    ensures Moved(schedule, from, end, target) == Min(target, Willing(schedule, from, end))
    ensures ok <==> Moved(schedule, from, end, target) == target
    ensures FailsAtMostLast(schedule, from, end, ok)
  {
    TransferMeans(schedule, from, end, target, ok);
    MovedIsSum(schedule, from, end, target);
    hide Moved, Willing, FailsAtMostLast;
  }

  lemma PrefixSent(before: Str, data: Str, n: nat)
    requires n <= |data|
    ensures before <= before + data[..n] <= before + data
    ensures before + data[..n] == before + data <==> n == |data|
  {
    assert data[..n] + data[n..] == data;
    assert before + data[..n] + data[n..] == before + data;
  }

  lemma SentGrows(before: Str, data: Str, n: nat, m: int)
    requires 0 <= m && n + m <= |data|
    ensures before + data[..n] + data[n..][..m] == before + data[..n + m]
  {
    assert data[..n] + data[n..][..m] == data[..n + m];
  }

  /** The calls of this transfer hand over no more than is available. */
  ghost predicate Supplied(schedule: Schedule, from: nat, target: nat, available: int) {
    forall end: nat, ok :: Transferred(schedule, from, end, target, ok) ==>
      Moved(schedule, from, end, target) <= available
  }

  lemma SuppliedNow(schedule: Schedule, from: nat, now: nat, end: nat, target: nat, count: nat, ok: bool, available: int)
    requires Supplied(schedule, from, target, available) && Transferred(schedule, from, end, target, ok)
    requires UnderWay(schedule, from, now, target, count) && now < end
    ensures count + Chunk(schedule(now), target - count) <= available
  {
    MovedMonotone(schedule, from, now, end, target);
    MovedMonotone(schedule, from, now + 1, end, target);
  }

  /** Exactly the bytes i, ..., j - 1 of the stream replace the front of the buffer. */
  lemma FilledMeans(buf: Str, s: Str, i: nat, j: nat, before: Str)
    ensures Filled(buf, s, i, j, before) <==>
      && i <= j <= |s| && |buf| == |before| >= j - i
      && (forall k :: 0 <= k < j - i ==> buf[k] == s[i + k])
      && (forall k :: j - i <= k < |buf| ==> buf[k] == before[k])
  {
    if i <= j <= |s| && |buf| == |before| >= j - i
      && (forall k :: 0 <= k < j - i ==> buf[k] == s[i + k])
      && (forall k :: j - i <= k < |buf| ==> buf[k] == before[k])
    {
      assert buf[..j - i] == s[i..j] && buf[j - i..] == before[j - i..];
      assert buf == buf[..j - i] + buf[j - i..];
    }
  }

  /** A buffer that begins with the bytes i, ..., j - 1 of the stream and is otherwise as before. */
  ghost predicate Filled(buf: Str, s: Str, i: nat, j: nat, before: Str) {
    && i <= j <= |s| && j - i <= |before|
    && buf == s[i..j] + before[j - i..]
  }

  lemma FilledGrows(s: Str, i: nat, j: nat, j': nat, buf: Str, buf': Str, before: Str)
    requires Filled(buf, s, i, j, before) && j <= j' <= |s| && j' - i <= |before|
    requires buf' == buf[..j - i] + s[j..j'] + buf[j' - i..]
    ensures Filled(buf', s, i, j', before)
  {
    assert buf[..j - i] == s[i..j];
    assert s[i..j] + s[j..j'] == s[i..j'];
  }

  /** Sending and then receiving over one pipe reproduces the data. */
  method SendThenReceive(a: Socket, b: Socket, data: Str, buf: array<Byte>) returns (ok: bool)
    requires a != b && a.outgoing == b.incoming && b.taken == |b.incoming.bytes|
    requires Terminates(a.schedule, a.calls, |data|) && Terminates(b.schedule, b.calls, |data|)
    requires |data| <= buf.Length
    modifies a, b, a.outgoing, buf
    ensures ok ==> buf[..|data|] == data && b.taken == |b.incoming.bytes|
    ensures !ok ==>
      || Transferred(a.schedule, old(a.calls), a.calls, |data|, false)
      || Transferred(b.schedule, old(b.calls), b.calls, |data|, false)
  {
    ok := a.SendB(data);
    if ok {
      ghost var start := b.taken;
      ok := b.ReceiveB(buf, |data|);
      if ok {
        assert b.incoming.bytes[start..] == data;
      }
    }
  }

  // ---------------------------------------------------------------------
  // Both loops at work at the same time

  /** What each end has got so far, and the answers the OS gave to its calls. */
  datatype Duplex = Duplex(
    data: Str, wanted: nat,
    sent: nat, inFlight: Str, received: Str,
    sendAnswers: seq<int>, receiveAnswers: seq<int>)

  /** One of the two loops makes its next call; the OS answers at will. */
  datatype Turn = SenderCalls(raw: int) | ReceiverCalls(raw: int)

  predicate Failed(answers: seq<int>) {
    answers != [] && answers[|answers| - 1] < 0
  }

  predicate SenderDone(d: Duplex) {
    d.sent >= |d.data| || Failed(d.sendAnswers)
  }

  predicate ReceiverDone(d: Duplex) {
    |d.received| >= d.wanted || Failed(d.receiveAnswers)
  }

  /**
    One pass through a loop body. The sender offers what is not yet sent; the
    receiver asks for what it still misses and gets no more than is in flight. A
    loop that has ended makes no more calls.
  */
  function TakeTurn(d: Duplex, t: Turn): (d': Duplex)
    requires d.sent <= |d.data|
    ensures d'.data == d.data && d'.wanted == d.wanted && d'.sent <= |d'.data|
  {
    match t
    case SenderCalls(raw) =>
      if SenderDone(d) then d else
      var res := Chunk(raw, |d.data| - d.sent);
      var answered := d.(sendAnswers := d.sendAnswers + [raw]);
      if res < 0 then answered else
      answered.(sent := d.sent + res, inFlight := d.inFlight + d.data[d.sent..d.sent + res])
    case ReceiverCalls(raw) =>
      if ReceiverDone(d) then d else
      var answer := if raw < 0 then raw else Min(raw, |d.inFlight|);
      var res := Chunk(answer, d.wanted - |d.received|);
      var answered := d.(receiveAnswers := d.receiveAnswers + [answer]);
      if res < 0 then answered else
      answered.(received := d.received + d.inFlight[..res], inFlight := d.inFlight[res..])
  }

  /** The answers given so far, as a schedule. */
  function AsSchedule(answers: seq<int>): Schedule {
    (t: nat) => if t < |answers| then answers[t] else 0
  }

  /** One loop against its own answers: under way, or ended by an error. */
  ghost predicate InStep(answers: seq<int>, target: nat, count: nat) {
    if Failed(answers)
    then Transferred(AsSchedule(answers), 0, |answers|, target, false)
         && count == Moved(AsSchedule(answers), 0, |answers|, target)
    else UnderWay(AsSchedule(answers), 0, |answers|, target, count)
  }

  lemma {:induction false} MovedLocal(s: Schedule, s': Schedule, from: nat, end: nat, target: nat)
    requires from <= end && forall t: nat :: t < end ==> s(t) == s'(t)
    ensures Moved(s, from, end, target) == Moved(s', from, end, target)
    decreases end
  {
    if from < end {
      MovedLocal(s, s', from, end - 1, target);
    }
  }

  lemma InStepNext(answers: seq<int>, target: nat, count: nat, answer: int)
    requires InStep(answers, target, count) && !Failed(answers) && count < target
    ensures var res := Chunk(answer, target - count);
      InStep(answers + [answer], target, if res < 0 then count else count + res)
  {
    var n := |answers|;
    var s, s' := AsSchedule(answers), AsSchedule(answers + [answer]);
    forall t: nat | t <= n
      ensures Moved(s, 0, t, target) == Moved(s', 0, t, target)
    {
      MovedLocal(s, s', 0, t, target);
    }
    forall t: nat | t < n
      ensures s'(t) == s(t) >= 0
    {
    }
    assert UnderWay(s', 0, n, target, count);
    UnderWayStep(s', 0, n, target, count);
  }

  ghost predicate Consistent(d: Duplex) {
    && d.sent <= |d.data| && |d.received| <= d.wanted
    && d.received + d.inFlight == d.data[..d.sent]
    && InStep(d.sendAnswers, |d.data|, d.sent)
    && InStep(d.receiveAnswers, d.wanted, |d.received|)
  }

  lemma SenderTurnConsistent(d: Duplex, raw: int)
    requires Consistent(d)
    ensures Consistent(TakeTurn(d, SenderCalls(raw)))
  {
    hide InStep;
    if !SenderDone(d) {
      InStepNext(d.sendAnswers, |d.data|, d.sent, raw);
      var res := Chunk(raw, |d.data| - d.sent);
      if res >= 0 {
        var more := d.data[d.sent..d.sent + res];
        assert d.received + (d.inFlight + more) == (d.received + d.inFlight) + more == d.data[..d.sent + res];
      }
    }
  }

  lemma ReceiverTurnConsistent(d: Duplex, raw: int)
    requires Consistent(d)
    ensures Consistent(TakeTurn(d, ReceiverCalls(raw)))
  {
    hide InStep;
    if !ReceiverDone(d) {
      var answer := if raw < 0 then raw else Min(raw, |d.inFlight|);
      InStepNext(d.receiveAnswers, d.wanted, |d.received|, answer);
      var res := Chunk(answer, d.wanted - |d.received|);
      if res >= 0 {
        assert (d.received + d.inFlight[..res]) + d.inFlight[res..] == d.received + d.inFlight;
      }
    }
  }

  function TakeTurns(d: Duplex, ts: seq<Turn>): (d': Duplex)
    requires d.sent <= |d.data|
    ensures d'.data == d.data && d'.wanted == d.wanted && d'.sent <= |d'.data|
    decreases |ts|
  {
    if ts == [] then d else TakeTurns(TakeTurn(d, ts[0]), ts[1..])
  }

  lemma {:induction false} TurnsConsistent(d: Duplex, ts: seq<Turn>)
    requires Consistent(d)
    ensures Consistent(TakeTurns(d, ts))
    decreases |ts|
  {
    assert d.sent <= |d.data|;
    hide Consistent, TakeTurn;
    if ts != [] {
      match ts[0] {
        case SenderCalls(raw) => SenderTurnConsistent(d, raw);
        case ReceiverCalls(raw) => ReceiverTurnConsistent(d, raw);
      }
      assert Consistent(TakeTurn(d, ts[0]));
      TurnsConsistent(TakeTurn(d, ts[0]), ts[1..]);
    }
  }

  // ---------------------------------------------------------------------
  // Progress

  /** The answers the OS has ready for the sender's turns. */
  function SenderRaws(ts: seq<Turn>): seq<int> {
    if ts == [] then [] else
    (if ts[0].SenderCalls? then [ts[0].raw] else []) + SenderRaws(ts[1..])
  }

  /** What the OS offers to take before it first fails. */
  function Offered(raws: seq<int>): nat {
    if raws == [] || raws[0] < 0 then 0 else raws[0] + Offered(raws[1..])
  }

  /** A turn of the sender hands over as much as the OS takes of what is missing, and nothing else happens. */
  lemma SenderProgress(d: Duplex, raw: int)
    requires d.sent < |d.data| && (d.sendAnswers == [] || d.sendAnswers[|d.sendAnswers| - 1] >= 0) && raw >= 0
    ensures var d', n := TakeTurn(d, SenderCalls(raw)), Min(raw, |d.data| - d.sent);
      && d'.sent == d.sent + n && d'.inFlight == d.inFlight + d.data[d.sent..d.sent + n]
      && d'.received == d.received && d'.receiveAnswers == d.receiveAnswers
      && d'.sendAnswers == d.sendAnswers + [raw]
  {
  }

  /** A turn of the receiver takes as much as the OS hands over of what is in flight and missing. */
  lemma ReceiverProgress(d: Duplex, raw: int)
    requires d.sent <= |d.data| && |d.received| < d.wanted && raw >= 0
    requires d.receiveAnswers == [] || d.receiveAnswers[|d.receiveAnswers| - 1] >= 0
    ensures var d', n := TakeTurn(d, ReceiverCalls(raw)), Min(Min(raw, |d.inFlight|), d.wanted - |d.received|);
      && d'.received == d.received + d.inFlight[..n] && d'.inFlight == d.inFlight[n..]
      && d'.sent == d.sent && d'.sendAnswers == d.sendAnswers
      && d'.receiveAnswers == d.receiveAnswers + [Min(raw, |d.inFlight|)]
  {
  }

  /** However the turns interleave, the sender hands over all the OS offers to take before it fails. */
  lemma {:induction false} SentIsOffered(d: Duplex, ts: seq<Turn>)
    requires d.sent <= |d.data| && !Failed(d.sendAnswers)
    ensures TakeTurns(d, ts).sent == Min(|d.data|, d.sent + Offered(SenderRaws(ts)))
    decreases |ts|
  {
    if ts != [] {
      var d', raws := TakeTurn(d, ts[0]), SenderRaws(ts[1..]);
      if ts[0].SenderCalls? {
        assert SenderRaws(ts) == [ts[0].raw] + raws && SenderRaws(ts)[1..] == raws;
      } else {
        assert SenderRaws(ts) == raws;
      }
      if SenderDone(d') {
        SentStays(d', ts[1..]);
      } else {
        SentIsOffered(d', ts[1..]);
      }
    }
  }

  /** A sender that is done sends nothing more. */
  lemma {:induction false} SentStays(d: Duplex, ts: seq<Turn>)
    requires d.sent <= |d.data| && SenderDone(d)
    ensures TakeTurns(d, ts).sent == d.sent
    decreases |ts|
  {
    if ts != [] {
      SentStays(TakeTurn(d, ts[0]), ts[1..]);
    }
  }

  ghost predicate NoneFails(raws: seq<int>) {
    forall i :: 0 <= i < |raws| ==> raws[i] >= 0
  }

  lemma {:induction false} OfferedSnoc(raws: seq<int>, raw: int)
    requires NoneFails(raws)
    ensures Offered(raws + [raw]) == Offered(raws) + if raw < 0 then 0 else raw
  {
    if raws != [] {
      assert (raws + [raw])[1..] == raws[1..] + [raw];
      OfferedSnoc(raws[1..], raw);
    }
  }

  lemma {:induction false} OfferedIsWilling(raws: seq<int>, n: nat)
    requires n <= |raws| && NoneFails(raws[..n])
    ensures Offered(raws[..n]) == Willing(AsSchedule(raws), 0, n)
  {
    if n > 0 {
      assert raws[..n] == raws[..n - 1] + [raws[n - 1]];
      assert forall i :: 0 <= i < n - 1 ==> raws[..n - 1][i] == raws[..n][i];
      OfferedIsWilling(raws, n - 1);
      OfferedSnoc(raws[..n - 1], raws[n - 1]);
    }
  }

  /** Nothing is offered behind the first failure. */
  lemma {:induction false} OfferedUpTo(raws: seq<int>, n: nat)
    requires n <= |raws| && (n == |raws| || raws[n] < 0)
    ensures Offered(raws) == Offered(raws[..n])
  {
    if n == |raws| {
      assert raws[..n] == raws;
    } else if n > 0 {
      assert raws[..n][1..] == raws[1..][..n - 1];
      OfferedUpTo(raws[1..], n - 1);
    }
  }

  /**
    The sender's turns, wherever they stand among the receiver's, move what the
    calls of a blocking `SendB` against the same answers move, up to the first
    failure or to the end of the turns.
  */
  lemma SenderIsSendB(data: Str, wanted: nat, ts: seq<Turn>, n: nat)
    requires var raws := SenderRaws(ts);
      n <= |raws| && NoneFails(raws[..n]) && (n == |raws| || raws[n] < 0)
    ensures TakeTurns(Duplex(data, wanted, 0, [], [], [], []), ts).sent
      == Moved(AsSchedule(SenderRaws(ts)), 0, n, |data|)
  {
    var raws := SenderRaws(ts);
    SentIsOffered(Duplex(data, wanted, 0, [], [], [], []), ts);
    hide TakeTurns, SenderRaws;
    OfferedUpTo(raws, n);
    OfferedIsWilling(raws, n);
    MovedIsSum(AsSchedule(raws), 0, n, |data|);
  }

  /** Both loops are well: nothing failed, and what was sent is received or in flight. */
  predicate Running(d: Duplex) {
    && d.sent <= |d.data| && |d.received| + |d.inFlight| == d.sent && |d.received| <= d.wanted
    && !Failed(d.sendAnswers) && !Failed(d.receiveAnswers)
  }

  lemma TurnRuns(d: Duplex, t: Turn)
    requires Running(d) && t.raw >= 0
    ensures var d' := TakeTurn(d, t);
      Running(d') && d'.sent >= d.sent && |d'.received| >= |d.received|
  {
  }

  lemma {:induction false} TurnsRun(d: Duplex, ts: seq<Turn>)
    requires Running(d) && forall i :: 0 <= i < |ts| ==> ts[i].raw >= 0
    ensures var d' := TakeTurns(d, ts);
      Running(d') && d'.sent >= d.sent && |d'.received| >= |d.received|
    decreases |ts|
  {
    hide TakeTurn;
    if ts != [] {
      TurnRuns(d, ts[0]);
      TurnsRun(TakeTurn(d, ts[0]), ts[1..]);
    }
  }

  lemma {:induction false} TurnsConcat(d: Duplex, a: seq<Turn>, b: seq<Turn>)
    requires d.sent <= |d.data|
    ensures TakeTurns(d, a + b) == TakeTurns(TakeTurns(d, a), b)
    decreases |a|
  {
    hide TakeTurn;
    if a == [] {
      assert a + b == b;
    } else {
      assert (a + b)[1..] == a[1..] + b;
      TurnsConcat(TakeTurn(d, a[0]), a[1..], b);
    }
  }

  /** No failure, and somewhere the OS moves something for the sender and later for the receiver. */
  ghost predicate Productive(ts: seq<Turn>) {
    && (forall i :: 0 <= i < |ts| ==> ts[i].raw >= 0)
    && (exists i, j :: 0 <= i < j < |ts|
          && ts[i].SenderCalls? && ts[i].raw > 0 && ts[j].ReceiverCalls? && ts[j].raw > 0)
  }

  lemma TurnsSnoc(d: Duplex, ts: seq<Turn>, i: nat)
    requires d.sent <= |d.data| && i < |ts|
    ensures TakeTurns(d, ts[..i + 1]) == TakeTurn(TakeTurns(d, ts[..i]), ts[i])
  {
    assert ts[..i + 1] == ts[..i] + [ts[i]];
    TurnsConcat(d, ts[..i], [ts[i]]);
    hide TakeTurn;
    assert [ts[i]][1..] == [];
  }

  /** With a productive turn at its end the sender gets further, unless all is sent. */
  lemma SenderGetsOn(d: Duplex, ts: seq<Turn>, i: nat)
    requires Running(d) && i < |ts| && ts[i].SenderCalls? && ts[i].raw > 0
    requires forall k :: 0 <= k < |ts| ==> ts[k].raw >= 0
    ensures var d' := TakeTurns(d, ts[..i + 1]);
      Running(d') && d'.sent >= Min(|d.data|, d.sent + 1) && |d'.received| >= |d.received|
  {
    TurnsSnoc(d, ts, i);
    TurnsRun(d, ts[..i]);
    var d1 := TakeTurns(d, ts[..i]);
    TurnRuns(d1, ts[i]);
    if d1.sent < |d.data| {
      SenderProgress(d1, ts[i].raw);
    }
    hide TakeTurn, TakeTurns;
  }

  /** With a productive turn at its end the receiver gets further, unless all that was sent or is wanted is there. */
  lemma ReceiverGetsOn(d: Duplex, ts: seq<Turn>, j: nat)
    requires Running(d) && j < |ts| && ts[j].ReceiverCalls? && ts[j].raw > 0
    requires forall k :: 0 <= k < |ts| ==> ts[k].raw >= 0
    ensures var d' := TakeTurns(d, ts[..j + 1]);
      Running(d') && |d'.received| >= Min(d.wanted, Min(d.sent, |d.received| + 1))
  {
    TurnsSnoc(d, ts, j);
    TurnsRun(d, ts[..j]);
    var d1 := TakeTurns(d, ts[..j]);
    TurnRuns(d1, ts[j]);
    if |d1.received| < d.wanted {
      ReceiverProgress(d1, ts[j].raw);
    }
    hide TakeTurn, TakeTurns;
  }

  lemma SplitAt(ts: seq<Turn>, n: nat)
    requires n <= |ts|
    ensures ts == ts[..n] + ts[n..]
  {
  }

  /** Such turns bring the receiver at least one byte further. */
  lemma ProductiveTurns(d: Duplex, ts: seq<Turn>)
    requires Running(d) && Productive(ts) && d.wanted <= |d.data|
    ensures var d' := TakeTurns(d, ts);
      Running(d') && |d'.received| >= Min(d.wanted, |d.received| + 1)
  {
    hide TakeTurn, TakeTurns, Failed;
    var i, j :| 0 <= i < j < |ts|
      && ts[i].SenderCalls? && ts[i].raw > 0 && ts[j].ReceiverCalls? && ts[j].raw > 0;
    SenderGetsOn(d, ts, i);
    ReceiverGetsThere(TakeTurns(d, ts[..i + 1]), ts[i + 1..], j - i - 1);
    SplitAt(ts, i + 1);
    TurnsConcat(d, ts[..i + 1], ts[i + 1..]);
  }

  lemma ReceiverGetsThere(d: Duplex, ts: seq<Turn>, j: nat)
    requires Running(d) && j < |ts| && ts[j].ReceiverCalls? && ts[j].raw > 0
    requires forall k :: 0 <= k < |ts| ==> ts[k].raw >= 0
    ensures var d' := TakeTurns(d, ts);
      Running(d') && |d'.received| >= Min(d.wanted, Min(d.sent, |d.received| + 1))
  {
    ReceiverGetsOn(d, ts, j);
    var d1 := TakeTurns(d, ts[..j + 1]);
    SplitAt(ts, j + 1);
    TurnsConcat(d, ts[..j + 1], ts[j + 1..]);
    hide TakeTurn, TakeTurns;
    TurnsRun(d1, ts[j + 1..]);
  }

  function Flatten(rounds: seq<seq<Turn>>): seq<Turn> {
    if rounds == [] then [] else rounds[0] + Flatten(rounds[1..])
  }

  lemma {:induction false} RoundsProgress(d: Duplex, rounds: seq<seq<Turn>>)
    requires Running(d) && d.wanted <= |d.data|
    requires forall i :: 0 <= i < |rounds| ==> Productive(rounds[i])
    ensures var d' := TakeTurns(d, Flatten(rounds));
      Running(d') && |d'.received| >= Min(d.wanted, |d.received| + |rounds|)
    decreases |rounds|
  {
    hide TakeTurn, Productive;
    if rounds != [] {
      TurnsConcat(d, rounds[0], Flatten(rounds[1..]));
      ProductiveTurns(d, rounds[0]);
      hide TakeTurns;
      RoundsProgress(TakeTurns(d, rounds[0]), rounds[1..]);
    }
  }

  /**
    Liveness: as long as nothing fails and time and again the OS moves at least
    one byte for the sender and then for the receiver, with any other turns in
    between, all that is wanted of the data arrives, within as many such rounds
    as bytes are wanted.
  */
  lemma EverythingArrives(data: Str, wanted: nat, rounds: seq<seq<Turn>>)
    requires wanted <= |data| && |rounds| >= wanted
    requires forall i :: 0 <= i < |rounds| ==> Productive(rounds[i])
    ensures TakeTurns(Duplex(data, wanted, 0, [], [], [], []), Flatten(rounds)).received == data[..wanted]
  {
    hide TakeTurns, Productive, Flatten, Transferred, Moved, AsSchedule, Offered, SenderRaws;
    RoundsProgress(Duplex(data, wanted, 0, [], [], [], []), rounds);
    InterleavedTransfer(data, wanted, Flatten(rounds));
    TakePrefix(TakeTurns(Duplex(data, wanted, 0, [], [], [], []), Flatten(rounds)).received, data);
  }

  lemma TakePrefix(a: Str, b: Str)
    requires a <= b
    ensures a == b[..|a|]
  {
  }

  /**
    However the two loops interleave and whatever the OS answers: the receiver
    always holds a prefix of the data; the sender has handed over all that the OS
    offered to take before its first failure; each loop that has ended made exactly the
    calls of a blocking transfer against its answers, which is true or false as
    its transfer is complete or not; and if both ended well over the same count,
    the data has arrived and nothing is left in flight.
  */
  lemma InterleavedTransfer(data: Str, wanted: nat, ts: seq<Turn>)
    ensures var d := TakeTurns(Duplex(data, wanted, 0, [], [], [], []), ts);
      && d.received <= data
      && d.sent == Min(|data|, Offered(SenderRaws(ts)))
      && (SenderDone(d) ==>
            Transferred(AsSchedule(d.sendAnswers), 0, |d.sendAnswers|, |data|, d.sent == |data|)
            && d.sent == Moved(AsSchedule(d.sendAnswers), 0, |d.sendAnswers|, |data|))
      && (ReceiverDone(d) ==>
            Transferred(AsSchedule(d.receiveAnswers), 0, |d.receiveAnswers|, wanted, |d.received| == wanted)
            && |d.received| == Moved(AsSchedule(d.receiveAnswers), 0, |d.receiveAnswers|, wanted))
      && (|d.received| == wanted == |data| ==> d.received == data && d.inFlight == [] && d.sent == |data|)
  {
    var start := Duplex(data, wanted, 0, [], [], [], []);
    assert InStep([], |data|, 0) && InStep([], wanted, 0);
    assert start.received + start.inFlight == data[..0];
    TurnsConsistent(start, ts);
    SentIsOffered(start, ts);
    hide Offered, SenderRaws;
    var d := TakeTurns(start, ts);
    assert d.received == data[..d.sent][..|d.received|] == data[..|d.received|];
    StepEnds(d.sendAnswers, |data|, d.sent);
    StepEnds(d.receiveAnswers, wanted, |d.received|);
  }

  lemma StepEnds(answers: seq<int>, target: nat, count: nat)
    requires InStep(answers, target, count)
    ensures Failed(answers) || count >= target ==>
      Transferred(AsSchedule(answers), 0, |answers|, target, count == target)
      && count == Moved(AsSchedule(answers), 0, |answers|, target)
  {
    if !Failed(answers) && count >= target {
      UnderWayEnds(AsSchedule(answers), 0, |answers|, target, count);
    }
  }
}
