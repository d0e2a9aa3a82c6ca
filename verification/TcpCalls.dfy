/** One call of `receive` and one call of `write`, from start to return, in every run. */
module TcpCalls {
  import opened Basics
  import opened SerialNumbers
  import opened TcpModel
  import opened TcpInvariant
  import opened TcpRefinement
  import opened TcpSystem
  import opened TcpTheorems
  import opened TcpResponses

  // ---------------------------------------------------------------- one pass

  /** A pass hands out `c` bytes: the front of the receive buffer goes to the application and is
      counted. */
  predicate HandsOut(s: Socket, s': Socket, c: nat) {
    && c <= |s.recv.Bytes()| && s'.recv.Bytes() == s.recv.Bytes()[c..]
    && s'.delivered == s.delivered + s.recv.Bytes()[..c] && s'.appRecvLen == s.appRecvLen + c
    && (Full(s) ==> Full(s'))
  }

  /** A buffer element in use holds at least one byte. */
  predicate Full(s: Socket) {
    s.recv.head.Some? ==> s.recv.head.value.data != []
  }

  /** The smaller of what is buffered and what is still wanted. */
  function Portion(s: Socket): nat {
    if |s.app| < |s.recv.Bytes()| then |s.app| else |s.recv.Bytes()|
  }

  lemma AckSends(ar: Arith, s: Socket, ack: int, q: Request)
    ensures var s' := SendAck(ar, s, ack, q); s' == s.(history := s'.history, wire := s'.wire)
  {
    QuietSteps(ar, s, q, false, false, false);
  }

  lemma AckReads(ar: Arith, s: Socket, q: Request)
    ensures var s' := ProcessAck(ar, s, q);
            s' == s.(history := s'.history, wire := s'.wire, ackTriggered := false)
  {
    AckSends(ar, s.(ackTriggered := false), s.recv.AckNum(ar), q);
  }

  /** In ESTABLISHED the call returns with the pass that fills the buffer or reads a pushed
      segment, and with no other. */
  predicate EstablishedPass(s: Socket, s': Socket) {
    && HandsOut(s, s', Portion(s)) && s'.app == s.app[Portion(s)..]
    && s'.state == ESTABLISHED && s'.fault == s.fault
    && (s'.receiving <==> !(s.recv.Bytes() != [] && (s.recv.push || Portion(s) == |s.app|)))
    && s'.waiting == (s.waiting && s'.receiving)
  }

  lemma CopiedOut(ar: Arith, s: Socket, c: nat)
    requires s.recv.head.Some? && 0 < |s.recv.Bytes()| && c <= |s.recv.Bytes()|
    ensures var s' := CopyData(ar, s, c);
            HandsOut(s, s'.(appRecvLen := s.appRecvLen + c), c)
            && s' == s.(recv := s'.recv, delivered := s'.delivered)
  {
  }

  lemma NothingRead(s: Socket, s': Socket)
    requires s.recv.Bytes() == [] && s'.recv == s.recv && s'.delivered == s.delivered && s'.appRecvLen == s.appRecvLen
    ensures HandsOut(s, s', 0)
  {
    assert s.delivered + [] == s.delivered;
  }

  lemma EstablishedReadsOut(ar: Arith, s: Socket, q: Request)
    requires s.state == ESTABLISHED && s.receiving
    ensures EstablishedPass(s, EstablishedReceiving(ar, s, q))
  {
    if |s.recv.Bytes()| > 0 {
      BufferReadsOut(ar, s, q);
    } else {
      AckReads(ar, s, q);
      EmptyReadsOut(s, ProcessAck(ar, s, q));
    }
  }

  lemma EmptyReadsOut(s: Socket, s': Socket)
    requires s.state == ESTABLISHED && s.receiving && |s.recv.Bytes()| == 0
    requires s' == s.(history := s'.history, wire := s'.wire, ackTriggered := s'.ackTriggered)
    ensures EstablishedPass(s, s')
  {
    NothingRead(s, s');
    assert s.app[0..] == s.app;
  }

  lemma BufferReadsOut(ar: Arith, s: Socket, q: Request)
    requires s.state == ESTABLISHED && s.receiving && |s.recv.Bytes()| > 0
    ensures EstablishedPass(s, EstablishedReceiving(ar, s, q))
  {
    var c := Portion(s);
    CopiedOut(ar, s, c);
    var s1 := ReadOut(ar, s, c);
    AckReads(ar, s1, q);
    ReturnsToReader(s, s1, ProcessAck(ar, s1, q), c);
    assert EstablishedReceiving(ar, s, q) == ReturnToReader(ProcessAck(ar, s1, q), |s1.app| == 0 || s.recv.push);
  }

  lemma ReturnsToReader(s: Socket, s1: Socket, s2: Socket, c: nat)
    requires s.state == ESTABLISHED && s.receiving && |s.recv.Bytes()| > 0 && c == Portion(s)
    requires HandsOut(s, s1, c)
    requires s1 == s.(recv := s1.recv, delivered := s1.delivered, app := s.app[c..], appRecvLen := s1.appRecvLen)
    requires s2 == s1.(history := s2.history, wire := s2.wire, ackTriggered := s2.ackTriggered)
    ensures EstablishedPass(s, ReturnToReader(s2, |s1.app| == 0 || s.recv.push))
  {
  }

  /** In CLOSEWAIT it returns at once, whatever it gets, unless it follows the null `head`. */
  predicate CloseWaitPass(s: Socket, s': Socket) {
    if s.recv.head.None? then s'.fault && s' == s.(fault := true, history := s'.history, wire := s'.wire)
    else HandsOut(s, s', Portion(s)) && !s'.receiving && !s'.waiting && s'.state == CLOSEWAIT && s'.fault == s.fault
  }

  lemma CloseWaitReadsOut(ar: Arith, s: Socket)
    requires s.state == CLOSEWAIT && s.receiving
    ensures CloseWaitPass(s, CloseWaitReceiving(ar, s))
  {
    if s.recv.head.Some? {
      if |s.recv.Bytes()| > 0 {
        CopiedOut(ar, s, Portion(s));
      } else {
        EmptyElement(ar, s);
      }
    }
  }

  lemma EmptyElement(ar: Arith, s: Socket)
    requires s.recv.head.Some? && s.recv.Bytes() == []
    ensures HandsOut(s, CopyData(ar, s, 0), 0)
  {
    assert s.delivered + [] == s.delivered;
  }

  /** What a pass without a segment reads, in the two states in which `receive` works. */
  predicate Pass(s: Socket, s': Socket) {
    if s.state == ESTABLISHED then EstablishedPass(s, s') else CloseWaitPass(s, s')
  }

  lemma PassReads(ar: Arith, s: Socket, e: Quiet)
    requires s.receiving && s.state in {ESTABLISHED, CLOSEWAIT}
    ensures Pass(s, InputQuiet(ar, s, e))
  {
    QuietSteps(ar, s, e.ackRequest, true, e.sent, e.timedOut);
    var s1 := UpdateHistory(ar, s, true, e.sent, e.timedOut);
    if s.state == ESTABLISHED {
      EstablishedReadsOut(ar, s1, e.ackRequest);
      PassOnTop(s, s1, EstablishedReceiving(ar, s1, e.ackRequest));
    } else {
      CloseWaitReadsOut(ar, s1);
      PassOnTop(s, s1, CloseWaitReceiving(ar, s1));
    }
  }

  lemma PassOnTop(s: Socket, s1: Socket, s': Socket)
    requires s1 == s.(history := s1.history, wire := s1.wire) && Pass(s1, s')
    ensures Pass(s, s')
  {
  }

  // ---------------------------------------------------------------- one step

  /** A call that began when `before` had been delivered, with a buffer of `n` bytes, and has not
      returned: it counts what it has delivered, and the rest of the buffer is still wanted. */
  predicate Reading(s: Socket, before: seq<byte>, n: nat) {
    && s.receiving && s.waiting && s.state in {ESTABLISHED, CLOSEWAIT}
    && Counted(s, before) && s.appRecvLen + |s.app| == n
    && (n > 0 ==> s.app != []) && Full(s)
  }

  predicate Counted(s: Socket, before: seq<byte>) {
    before <= s.delivered && |s.delivered| == |before| + s.appRecvLen
  }

  predicate Returned(s: Socket, before: seq<byte>, n: nat) {
    && !s.receiving && !s.waiting && !s.fault && s.state in {ESTABLISHED, CLOSEWAIT}
    && Counted(s, before) && s.appRecvLen <= n && (n > 0 ==> s.appRecvLen > 0) && Full(s)
  }

  /** The steps with which the call returns. */
  predicate Returns(s: Socket, a: Action) {
    && a.Wait? && !s.fault
    && if s.state == ESTABLISHED then s.recv.Bytes() != [] && (s.recv.push || |s.app| <= |s.recv.Bytes()|)
       else s.recv.head.Some?
  }

  /** A step that leaves the call alone. */
  predicate CallKept(s: Socket, s': Socket) {
    && s'.receiving == s.receiving && s'.waiting == s.waiting && s'.fault == s.fault
    && s'.delivered == s.delivered && s'.app == s.app && s'.appRecvLen == s.appRecvLen
    && (Full(s) ==> Full(s'))
  }

  lemma SynKeeps(ar: Arith, s: Socket, q: Request)
    ensures var s' := SendPendingAck(ar, s, q); CallKept(s, s') && s'.state == s.state
    ensures var s' := SendFinAck(ar, s, q); CallKept(s, s') && s'.state == s.state
  {
    AckSends(ar, s.(ackTriggered := false), s.recv.AckNum(ar), q);
    AckSends(ar, s, ar.Plus(s.finSeq, 1), q);
  }

  lemma AckKept(ar: Arith, s: Socket, g: Segment)
    ensures CallKept(s, HandleAckOf(ar, s, g))
  {
  }

  lemma DataKept(s: Socket, g: Segment)
    ensures CallKept(s, HandleData(s, g))
  {
  }

  lemma TakenKept(ar: Arith, s: Socket, g: Segment)
    ensures CallKept(s, TakeIn(ar, s, g))
  {
    var s1 := HandleAckOf(ar, s, g);
    var s2 := HandleFin(ar, s1, g);
    AckKept(ar, s, g);
    assert CallKept(s1, s2);
    DataKept(s2, g);
  }

  lemma ReadKept(s: Socket, s1: Socket, s': Socket)
    requires CallKept(s, s1) && ReadsAs(s1, s')
    ensures CallKept(s, s')
  {
  }

  lemma TailState(ar: Arith, s: Socket, q: Request)
    ensures EstablishedTail(ar, s, q).state in {s.state, CLOSEWAIT}
  {
    AckSends(ar, s, ar.Plus(s.finSeq, 1), q);
  }

  lemma DataKeeps(ar: Arith, s: Socket, g: Segment, q: Request)
    requires !g.syn && s.state == ESTABLISHED
    ensures var s' := Established(ar, s, g, q); CallKept(s, s') && s'.state in {ESTABLISHED, CLOSEWAIT}
  {
    EstablishedReads(ar, s, g, q);
    TakenKept(ar, s, g);
    ReadKept(s, TakeIn(ar, s, g), Established(ar, s, g, q));
    TailState(ar, UpdateSendWindow(ar, TakeIn(ar, s, g), g), q);
  }

  lemma LateKeeps(ar: Arith, s: Socket, g: Segment, q: Request)
    requires !g.syn && s.state == CLOSEWAIT
    ensures var s' := CloseWait(ar, s, g, q); CallKept(s, s') && s'.state == CLOSEWAIT
  {
    LastStatesRead(ar, s, g, q);
    AckKept(ar, s, g);
    ReadKept(s, HandleAckOf(ar, s, g), CloseWait(ar, s, g, q));
    AckSends(ar, HandleAckOf(ar, s, g), ar.Plus(s.finSeq, 1), q);
  }

  /** A segment leaves the call alone. */
  lemma SegmentReads(ar: Arith, s: Socket, g: Segment, q: Request, before: seq<byte>, n: nat)
    requires Reading(s, before, n)
    ensures Reading(Input(ar, s, g, q), before, n)
  {
    if g.syn {
      SynKeeps(ar, s, q);
    } else if s.state == ESTABLISHED {
      DataKeeps(ar, s, g, q);
    } else {
      LateKeeps(ar, s, g, q);
    }
  }

  lemma CountGrows(s: Socket, s': Socket, before: seq<byte>, c: nat)
    requires Counted(s, before) && HandsOut(s, s', c)
    ensures Counted(s', before)
  {
  }

  lemma PassGoesOn(s: Socket, s': Socket, e: Quiet, before: seq<byte>, n: nat)
    requires Reading(s, before, n) && !s.fault && Pass(s, s')
    ensures if Returns(s, Wait(e)) then Returned(s', before, n) else Reading(s', before, n)
  {
    if s.state == ESTABLISHED || s.recv.head.Some? {
      CountGrows(s, s', before, Portion(s));
    }
  }

  /** Every step goes on with the call or returns from it, and it returns exactly then. */
  lemma StepReads(ar: Arith, s: Socket, peer: seq<Segment>, a: Action, before: seq<byte>, n: nat)
    requires Reading(s, before, n)
    ensures var s' := Step(ar, s, peer, a);
            if Returns(s, a) then Returned(s', before, n) else Reading(s', before, n)
  {
    if !s.fault {
      match a
      case Wait(e) =>
        PassReads(ar, s, e);
        PassGoesOn(s, InputQuiet(ar, s, e), e, before, n);
      case Deliver(i, q) => if i < |peer| { SegmentReads(ar, s, peer[i], q, before, n); }
      case _ =>
    }
  }

  // ---------------------------------------------------------------- every run

  /** The call of A is in progress up to the last event, which may end it. */
  predicate InCall(ar: Arith, sys: System, events: seq<Event>)
    decreases |events|
  {
    events == [] || (sys.a.receiving && InCall(ar, Next(ar, sys, events[0]), events[1..]))
  }

  lemma {:induction false} RunReads(ar: Arith, sys: System, events: seq<Event>, before: seq<byte>, n: nat)
    requires Reading(sys.a, before, n) && InCall(ar, sys, events)
    ensures var s := Run(ar, sys, events).a; Reading(s, before, n) || Returned(s, before, n)
    decreases |events|
  {
    if events != [] {
      var e := events[0];
      if e.side == A {
        StepReads(ar, sys.a, sys.b.wire, e.action, before, n);
      }
      if Next(ar, sys, e).a.receiving {
        RunReads(ar, Next(ar, sys, e), events[1..], before, n);
      } else {
        assert events[1..] == [];
      }
    }
  }

  /** The value `receive` returns. */
  function ReceiveResult(s: Socket): int {
    if s.appRecvLen == 0 && s.state == CLOSEWAIT then -2 else s.appRecvLen
  }

  /** A call that started in `before`, with the buffer `buf`, as it stands or as it returned. */
  predicate Exact(before: Socket, s: Socket, buf: seq<byte>) {
    && before.delivered <= s.delivered
    && |s.delivered| - |before.delivered| == s.appRecvLen <= |buf|
    && s.receiving == s.waiting
    && (s.receiving ==> s.appRecvLen + |s.app| == |buf|)
    && (!s.receiving && buf != [] ==> ReceiveResult(s) == s.appRecvLen > 0)
  }

  /** From the start of a `receive` to its return: the length it counts is the growth of what was
      delivered, and never more than the buffer; while it goes on, the rest of the buffer is still
      wanted; when it returns from a buffer that was not empty, it returns at least one byte, so
      the -2 for the end of the stream is never returned. */
  lemma ReceiveIsExact(ar: Arith, sys: System, buf: seq<byte>, events: seq<Event>)
    requires sys.a.state in {ESTABLISHED, CLOSEWAIT} && !sys.a.waiting && !sys.a.fault && Full(sys.a)
    requires InCall(ar, Next(ar, sys, Event(A, Receive(buf))), events)
    ensures Exact(sys.a, Run(ar, Next(ar, sys, Event(A, Receive(buf))), events).a, buf)
  {
    var start := Next(ar, sys, Event(A, Receive(buf)));
    assert Reading(start.a, sys.a.delivered, |buf|);
    RunReads(ar, start, events, sys.a.delivered, |buf|);
  }

  /** So in every live run of two 32-bit endpoints. */
  lemma ReceiveInRunIsExact(sys: System, t: Terms, u: Terms, events: seq<Event>, buf: seq<byte>, more: seq<Event>)
    requires Start(sys, t, u) && LiveRun(sys, events)
    requires var a := End(sys, events).a; a.state in {ESTABLISHED, CLOSEWAIT} && !a.waiting && !a.fault
    requires InCall(Wrapped, Next(Wrapped, End(sys, events), Event(A, Receive(buf))), more)
    ensures Exact(End(sys, events).a, Run(Wrapped, Next(Wrapped, End(sys, events), Event(A, Receive(buf))), more).a, buf)
  {
    ElementIsFull(sys, t, u, events);
    ReceiveIsExact(Wrapped, End(sys, events), buf, more);
  }

  lemma ElementIsFull(sys: System, t: Terms, u: Terms, events: seq<Event>)
    requires Start(sys, t, u) && LiveRun(sys, events)
    ensures Full(End(sys, events).a)
  {
    var x := Shadow(sys, t, u, events);
  }

  // ---------------------------------------------------------------- write

  lemma EstablishedWritten(ar: Arith, s: Socket, e: Quiet)
    ensures EstablishedBusy(ar, s, e).written == s.written
  {
    if s.receiving {
      if |s.recv.Bytes()| > 0 {
        AckReads(ar, ReadOut(ar, s, Portion(s)), e.ackRequest);
      } else {
        AckReads(ar, s, e.ackRequest);
      }
    } else {
      AckReads(ar, s, e.ackRequest);
      DataOnlySends(ar, ProcessAck(ar, s, e.ackRequest), e.dataRequest, e.due);
    }
  }

  lemma CloseWaitWritten(ar: Arith, s: Socket, e: Quiet)
    ensures CloseWaitBusy(ar, s, e).written == s.written
  {
    DataOnlySends(ar, s, e.dataRequest, e.due);
  }

  lemma BusyPassWritten(ar: Arith, s: Socket, e: Quiet)
    requires s.state == ESTABLISHED || s.state == CLOSEWAIT
    ensures InputQuiet(ar, s, e).written == s.written
  {
    QuietSteps(ar, s, e.ackRequest, true, e.sent, e.timedOut);
    EstablishedWritten(ar, UpdateHistory(ar, s, true, e.sent, e.timedOut), e);
    CloseWaitWritten(ar, UpdateHistory(ar, s, true, e.sent, e.timedOut), e);
  }

  lemma FinWaitPassWritten(ar: Arith, s: Socket, e: Quiet)
    requires s.state in {FINWAIT1, FINWAIT2}
    ensures InputQuiet(ar, s, e).written == s.written
  {
    QuietSteps(ar, s, e.ackRequest, true, e.sent, e.timedOut);
    AckReads(ar, UpdateHistory(ar, s, true, e.sent, e.timedOut), e.ackRequest);
  }

  lemma LastPassWritten(ar: Arith, s: Socket, e: Quiet)
    requires s.state == CLOSED || s.state == LASTACK || s.state == CLOSING || s.state == TIMEWAIT
    ensures InputQuiet(ar, s, e).written == s.written
  {
    QuietSteps(ar, s, e.ackRequest, true, e.sent, e.timedOut);
  }

  lemma PassWritten(ar: Arith, s: Socket, e: Quiet)
    ensures InputQuiet(ar, s, e).written == s.written
  {
    match s.state
    case ESTABLISHED => BusyPassWritten(ar, s, e);
    case CLOSEWAIT => BusyPassWritten(ar, s, e);
    case FINWAIT1 => FinWaitPassWritten(ar, s, e);
    case FINWAIT2 => FinWaitPassWritten(ar, s, e);
    case _ => LastPassWritten(ar, s, e);
  }

  lemma SynWritten(ar: Arith, s: Socket, g: Segment, q: Request)
    requires g.syn
    ensures Input(ar, s, g, q).written == s.written
  {
    AckSends(ar, s.(ackTriggered := false), s.recv.AckNum(ar), q);
    AckSends(ar, s, ar.Plus(s.finSeq, 1), q);
  }

  lemma TakenWritten(ar: Arith, s: Socket, g: Segment)
    ensures TakeIn(ar, s, g).written == s.written
    ensures HandleData(HandleFin(ar, s, g), g).written == s.written
    ensures HandleAckOf(ar, s, g).written == s.written
  {
  }

  lemma OpenWritten(ar: Arith, s: Socket, g: Segment, q: Request)
    requires !g.syn && s.state in {ESTABLISHED, FINWAIT1, FINWAIT2}
    ensures Input(ar, s, g, q).written == s.written
  {
    TakenWritten(ar, s, g);
    if s.state == ESTABLISHED {
      EstablishedReads(ar, s, g, q);
    } else {
      FinWaitReads(ar, s, g, q);
    }
  }

  lemma LastWritten(ar: Arith, s: Socket, g: Segment, q: Request)
    requires !g.syn && s.state !in {ESTABLISHED, FINWAIT1, FINWAIT2}
    ensures Input(ar, s, g, q).written == s.written
  {
    TakenWritten(ar, s, g);
    LastStatesRead(ar, s, g, q);
  }

  lemma SegmentWritten(ar: Arith, s: Socket, g: Segment, q: Request)
    ensures Input(ar, s, g, q).written == s.written
  {
    if g.syn {
      SynWritten(ar, s, g, q);
    } else if s.state in {ESTABLISHED, FINWAIT1, FINWAIT2} {
      OpenWritten(ar, s, g, q);
    } else {
      LastWritten(ar, s, g, q);
    }
  }

  /** The step with which a `write` starts. */
  predicate Writes(s: Socket, a: Action) {
    a.Write? && !s.waiting && !s.fault && s.state in {ESTABLISHED, CLOSEWAIT}
  }

  /** The stream grows by what `write` is given, and by no other step. */
  lemma StepWritten(ar: Arith, s: Socket, peer: seq<Segment>, a: Action)
    ensures Step(ar, s, peer, a).written == s.written + if Writes(s, a) then a.data else []
    ensures Writes(s, a) ==> Step(ar, s, peer, a).waiting
  {
    match a
    case Write(_) =>
    case Receive(_) =>
    case Close(q) => QuietSteps(ar, s, q, false, false, false);
    case Poll(e) =>
      QuietSteps(ar, s, e.ackRequest, true, e.sent, e.timedOut);
      AckReads(ar, UpdateHistory(ar, s, true, e.sent, e.timedOut), e.ackRequest);
    case Wait(e) => PassWritten(ar, s, e);
    case Deliver(i, q) => if i < |peer| { SegmentWritten(ar, s, peer[i], q); }
  }

  /** A call of A waits up to the last event, which may end it. */
  predicate InWait(ar: Arith, sys: System, events: seq<Event>)
    decreases |events|
  {
    events == [] || (sys.a.waiting && InWait(ar, Next(ar, sys, events[0]), events[1..]))
  }

  lemma {:induction false} RunWritten(ar: Arith, sys: System, events: seq<Event>)
    requires InWait(ar, sys, events)
    ensures Run(ar, sys, events).a.written == sys.a.written
    decreases |events|
  {
    if events != [] {
      var e := events[0];
      if e.side == A {
        StepWritten(ar, sys.a, sys.b.wire, e.action);
      }
      RunWritten(ar, Next(ar, sys, e), events[1..]);
    }
  }

  lemma {:induction false} RunJoins(ar: Arith, sys: System, first: seq<Event>, rest: seq<Event>)
    ensures Run(ar, sys, first + rest) == Run(ar, Run(ar, sys, first), rest)
    decreases |first|
  {
    if first == [] {
      assert first + rest == rest;
    } else {
      assert (first + rest)[0] == first[0] && (first + rest)[1..] == first[1..] + rest;
      RunJoins(ar, Next(ar, sys, first[0]), first[1..], rest);
    }
  }

  /** From the start of a `write` to its return, in every live run of two 32-bit endpoints: the
      stream grows by exactly the bytes it was given, and when the call has returned the peer has
      accepted all of them, and everything before them, in order. */
  lemma WriteIsExact(sys: System, t: Terms, u: Terms, events: seq<Event>, data: seq<byte>, more: seq<Event>)
    requires Start(sys, t, u) && LiveRun(sys, events + ([Event(A, Write(data))] + more))
    requires Writes(End(sys, events).a, Write(data))
    requires InWait(Wrapped, Next(Wrapped, End(sys, events), Event(A, Write(data))), more)
    ensures var end := End(sys, events + ([Event(A, Write(data))] + more));
            && end.a.written == End(sys, events).a.written + data
            && (!end.a.waiting ==> end.b.delivered + end.b.recv.Bytes() == end.a.written)
  {
    var call := [Event(A, Write(data))] + more;
    var before := End(sys, events);
    RunJoins(Wrapped, TruncSystem(sys), events, call);
    assert call[0] == Event(A, Write(data)) && call[1..] == more;
    StepWritten(Wrapped, before.a, before.b.wire, Write(data));
    RunWritten(Wrapped, Next(Wrapped, before, call[0]), more);
    if !End(sys, events + call).a.waiting {
      OutsideWriteAllIsAccepted(sys, t, u, events + call);
    }
  }
}
