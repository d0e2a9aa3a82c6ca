/** What an endpoint answers: a segment that times out goes out again, data is taken and
    acknowledged, pending bytes are sent as soon as nothing is unacknowledged, and calls return. */
module TcpResponses {
  import opened Basics
  import opened SerialNumbers
  import opened TcpModel
  import opened TcpInvariant
  import opened TcpSteps
  import opened TcpRefinement
  import opened TcpSystem
  import opened TcpTheorems

  // ---------------------------------------------------------------- retransmission

  /** The record still waits for its acknowledgement. */
  predicate Unacked(ar: Arith, s: Socket) {
    && s.history.Some? && s.history.value.timed
    && !ar.Lt(s.history.value.segment.seqno, s.una)
  }

  /** Nothing else is sent meanwhile: no buffer can be obtained. */
  lemma NoBuffer(ar: Arith, s: Socket, q: Request)
    requires Unacked(ar, s)
    ensures RequestBuffer(ar, s, q) == (s, false)
    ensures ProcessAck(ar, s, q) == s.(ackTriggered := false)
  {
    var s1 := s.(ackTriggered := false);
    assert RequestBuffer(ar, s1, q) == (s1, false);
  }

  lemma NoSegment(ar: Arith, s: Socket, q: Request, due: bool)
    requires Unacked(ar, s)
    ensures ProcessSendData(ar, s, q, due) == s
  {
    NoBuffer(ar, s, q);
  }

  /** What a pass leaves alone: everything that is sent is logged in `wire`. */
  predicate Idle(s: Socket, s': Socket) {
    s'.wire == s.wire && s'.history == s.history && s'.una == s.una && s'.nxt == s.nxt && s'.state == s.state
  }

  lemma EstablishedIdles(ar: Arith, s: Socket, e: Quiet)
    requires Unacked(ar, s)
    ensures Idle(s, EstablishedBusy(ar, s, e))
  {
    if s.receiving {
      var n := |s.recv.Bytes()|;
      if n > 0 {
        NoBuffer(ar, ReadOut(ar, s, if n > |s.app| then |s.app| else n), e.ackRequest);
      } else {
        NoBuffer(ar, s, e.ackRequest);
      }
    } else {
      NoBuffer(ar, s, e.ackRequest);
      NoSegment(ar, s.(ackTriggered := false), e.dataRequest, e.due);
    }
  }

  lemma CloseWaitIdles(ar: Arith, s: Socket, e: Quiet)
    requires Unacked(ar, s)
    ensures Idle(s, CloseWaitBusy(ar, s, e))
  {
    NoSegment(ar, s, e.dataRequest, e.due);
  }

  /** The segments a pass puts on the wire, while the record waits for its acknowledgement. */
  function Resent(s: Socket, e: Quiet): seq<Segment>
    requires s.history.Some?
  {
    if e.timedOut then [s.history.value.segment] else []
  }

  lemma RecordStays(ar: Arith, s: Socket, e: Quiet)
    requires Unacked(ar, s)
    ensures var s1 := UpdateHistory(ar, s, true, e.sent, e.timedOut);
            s1 == s.(wire := s.wire + Resent(s, e)) && Unacked(ar, s1)
  {
    if !e.timedOut {
      assert s.wire + [] == s.wire;
    }
  }

  /** In every open state a pass sends the record again if it timed out, and nothing otherwise. */
  lemma QuietResends(ar: Arith, s: Socket, e: Quiet)
    requires Unacked(ar, s) && s.state != CLOSED
    ensures InputQuiet(ar, s, e).wire == s.wire + Resent(s, e)
  {
    RecordStays(ar, s, e);
    var s1 := UpdateHistory(ar, s, true, e.sent, e.timedOut);
    match s.state
    case ESTABLISHED => EstablishedIdles(ar, s1, e);
    case CLOSEWAIT => CloseWaitIdles(ar, s1, e);
    case FINWAIT1 => NoBuffer(ar, s1, e.ackRequest);
    case FINWAIT2 => NoBuffer(ar, s1, e.ackRequest);
    case LASTACK =>
    case CLOSING =>
    case TIMEWAIT =>
  }

  /** The unacknowledged range [una, nxt) is the record: the bytes of the stream in that range,
      or the FIN. */
  lemma RecordIsRange(s: Socket, o: Socket, t: Terms, u: Terms)
    requires Good(s, o, t, u) && s.una < s.nxt
    ensures Unacked(Unbounded, s) && s.state != CLOSED
    ensures var g := s.history.value.segment;
            && g.seqno == s.una && g.End() == s.nxt
            && (g.fin ==> g.payload == [] && FinSent(s))
            && (!g.fin ==> t.base <= s.una && s.nxt <= t.base + |s.written|
                           && g.payload == s.written[s.una - t.base .. s.nxt - t.base])
  {
    assert SentSegment(FlowOf(s, t.base), u.wmax, s.history.value.segment);
  }

  /** While something is unacknowledged, a pass whose clock is past the timeout sends exactly that
      range again; any other pass sends nothing. */
  lemma LostIsSentAgain(s: Socket, o: Socket, t: Terms, u: Terms, e: Quiet)
    requires Good(s, o, t, u) && s.waiting && !s.fault && s.una < s.nxt
    ensures s.history.Some? && Step(Unbounded, s, o.wire, Wait(e)).wire == s.wire + Resent(s, e)
    ensures var g := s.history.value.segment;
            && g.seqno == s.una && g.End() == s.nxt
            && (g.fin ==> g.payload == [] && FinSent(s))
            && (!g.fin ==> t.base <= s.una && s.nxt <= t.base + |s.written|
                           && g.payload == s.written[s.una - t.base .. s.nxt - t.base])
  {
    RecordIsRange(s, o, t, u);
    QuietResends(Unbounded, s, e);
  }

  /** The same in every live run of the 32-bit engines. */
  lemma TimedOutIsSentAgain(sys: System, t: Terms, u: Terms, events: seq<Event>, e: Quiet)
    requires Start(sys, t, u) && LiveRun(sys, events)
    requires var a := End(sys, events).a; a.waiting && !a.fault && a.una != a.nxt
    ensures var end := End(sys, events);
            && RecordIsUnacked(end.a, t) && end.a.history.Some?
            && Step(Wrapped, end.a, end.b.wire, Wait(e)).wire
               == end.a.wire + if e.timedOut then [end.a.history.value.segment] else []
  {
    var x := Shadow(sys, t, u, events);
    var end := End(sys, events);
    RecordOfGood(x.a, x.b, t, u);
    GoodIsTame(x.a, x.b, t, u);
    TruncatedDifference(x.a.history.value.segment.seqno, x.a.una);
    RecordIsRange(x.a, x.b, t, u);
    assert Unacked(Wrapped, end.a);
    QuietResends(Wrapped, end.a, e);
  }

  // ---------------------------------------------------------------- an empty history

  /** Everything sent is acknowledged, and the interface has finished with a pure
      acknowledgement, if the record is one. */
  predicate Clear(s: Socket, sent: bool) {
    s.una == s.nxt && (s.history.Some? && !s.history.value.timed ==> sent)
  }

  /** Then, and only then, the record goes, and a buffer depends on the memory alone. */
  lemma ClearIsEmptied(s: Socket, o: Socket, t: Terms, u: Terms, retransmit: bool, sent: bool, timedOut: bool, mem: bool)
    requires Good(s, o, t, u)
    ensures UpdateHistory(Unbounded, s, retransmit, sent, timedOut).history.None? <==> Clear(s, sent)
    ensures Clear(s, sent) ==> UpdateHistory(Unbounded, s, retransmit, sent, timedOut) == s.(history := None)
    ensures RequestBuffer(Unbounded, s, Request(sent, mem)).1 <==> Clear(s, sent) && mem
    ensures Clear(s, sent) ==> RequestBuffer(Unbounded, s, Request(sent, mem)).0 == s.(history := None)
  {
  }

  // ---------------------------------------------------------------- acknowledgements

  /** The largest window that fits the header field. */
  function Advertised(b: RecvBuf, t: Terms): int {
    var free := t.wmax - |b.Bytes()|;
    if free > MAX_WINDOW then MAX_WINDOW else free
  }

  function PureAck(nxt: int, ack: int, window: int): Segment {
    Segment(nxt, ack, false, false, false, true, window, [])
  }

  /** An acknowledgement that is due goes out at once when a buffer can be had. */
  lemma AckGoesOut(s: Socket, o: Socket, t: Terms, u: Terms, q: Request)
    requires Good(s, o, t, u) && s.state != CLOSED && s.history.None? && s.ackTriggered && q.mem
    ensures var h := PureAck(s.nxt, IntakeOf(s).ackNum, Advertised(s.recv, t));
            ProcessAck(Unbounded, s, q)
            == s.(ackTriggered := false, wire := s.wire + [h], history := Some(Record(h, false)))
  {
    var s1 := s.(ackTriggered := false);
    WindowFits(s1, IntakeOf(s1), t.wmax);
    assert RequestBuffer(Unbounded, s1, q) == (s1, true);
  }

  /** What `processSendData` leaves alone; and when it empties the buffer of `write`, it leaves a
      record. */
  predicate OnlySends(s: Socket, s': Socket) {
    && s' == s.(app := s'.app, nxt := s'.nxt, sendWindow := s'.sendWindow, wire := s'.wire, history := s'.history)
    && s.wire <= s'.wire && (s.app != [] && s'.app == [] ==> s'.history.Some?)
  }

  lemma SegmentOnlySends(ar: Arith, s: Socket, len: nat, q: Request)
    requires 0 < len <= |s.app|
    ensures OnlySends(s, SendSegment(ar, s, len, q).0)
    ensures SendSegment(ar, s, len, q).1 ==> SendSegment(ar, s, len, q).0.history.Some?
  {
    QuietSteps(ar, s, q, false, false, false);
  }

  lemma {:induction false} LoopOnlySends(ar: Arith, s: Socket, q: Request)
    requires s.mss > 0
    ensures OnlySends(s, SendLoop(ar, s, q))
    decreases |s.app|
  {
    if |s.app| > 0 && s.sendWindow > 0 {
      var len := Min3(s.sendWindow, |s.app|, s.mss);
      SegmentOnlySends(ar, s, len, q);
      var (s1, ok) := SendSegment(ar, s, len, q);
      if ok {
        LoopOnlySends(ar, s1, q);
        if s1.app == [] {
          assert SendLoop(ar, s1, q) == s1;
        }
      }
    }
  }

  lemma DataOnlySends(ar: Arith, s: Socket, q: Request, due: bool)
    ensures OnlySends(s, ProcessSendData(ar, s, q, due))
  {
    if |s.app| > 0 {
      if s.sendWindow == 0 {
        SegmentOnlySends(ar, s, 1, q);
      } else {
        LoopOnlySends(ar, s, q);
      }
    }
  }

  /** The acknowledgement `h` is the first thing on the wire. */
  predicate Answered(s: Socket, s': Socket, h: Segment) {
    s.wire + [h] <= s'.wire && !s'.ackTriggered && (!Sending(s) ==> s'.wire == s.wire + [h])
  }

  lemma ReceiverAnswers(s: Socket, o: Socket, t: Terms, u: Terms, q: Request)
    requires Good(s, o, t, u) && s.state == ESTABLISHED && s.receiving
    requires s.history.None? && s.ackTriggered && q.mem
    ensures var s' := EstablishedReceiving(Unbounded, s, q);
            Answered(s, s', PureAck(s.nxt, IntakeOf(s).ackNum, Advertised(s'.recv, t)))
  {
    var n := |s.recv.Bytes()|;
    if n > 0 {
      var c := if n > |s.app| then |s.app| else n;
      ReadOutKeeps(s, o, t, u, c);
      CopyDataIntake(s, c);
      AckGoesOut(ReadOut(Unbounded, s, c), o, t, u, q);
    } else {
      AckGoesOut(s, o, t, u, q);
    }
  }

  lemma WriterAnswers(s: Socket, o: Socket, t: Terms, u: Terms, e: Quiet)
    requires Good(s, o, t, u) && s.state == ESTABLISHED && !s.receiving && s.waiting
    requires s.history.None? && s.ackTriggered && e.ackRequest.mem
    ensures var s' := EstablishedBusy(Unbounded, s, e);
            Answered(s, s', PureAck(s.nxt, IntakeOf(s).ackNum, Advertised(s'.recv, t)))
  {
    AckGoesOut(s, o, t, u, e.ackRequest);
    DataOnlySends(Unbounded, ProcessAck(Unbounded, s, e.ackRequest), e.dataRequest, e.due);
  }

  /** Received data is acknowledged by the next pass that can have a buffer: with the number
      behind the accepted bytes and the window that is open after that pass has read. */
  lemma PendingAckIsSent(s: Socket, o: Socket, t: Terms, u: Terms, e: Quiet)
    requires Good(s, o, t, u) && s.waiting && s.state in {ESTABLISHED, FINWAIT1, FINWAIT2}
    requires s.ackTriggered && Clear(s, e.sent) && e.ackRequest.mem
    ensures var s' := InputQuiet(Unbounded, s, e);
            Answered(s, s', PureAck(s.nxt, IntakeOf(s).ackNum, Advertised(s'.recv, t)))
  {
    ClearIsEmptied(s, o, t, u, true, e.sent, e.timedOut, true);
    UpdateHistoryKeeps(s, o, t, u, true, e.sent, e.timedOut);
    var s1 := s.(history := None);
    if s.state != ESTABLISHED {
      AckGoesOut(s1, o, t, u, e.ackRequest);
    } else if s.receiving {
      ReceiverAnswers(s1, o, t, u, e.ackRequest);
    } else {
      WriterAnswers(s1, o, t, u, e);
    }
  }

  /** `poll` acknowledges as well, for a socket that no call waits on. */
  lemma PollAnswers(s: Socket, o: Socket, t: Terms, u: Terms, e: Quiet)
    requires Good(s, o, t, u) && !s.waiting && s.state in {ESTABLISHED, CLOSEWAIT}
    requires s.ackTriggered && Clear(s, e.sent) && e.ackRequest.mem
    ensures Answered(s, PollTail(Unbounded, s, e), PureAck(s.nxt, IntakeOf(s).ackNum, Advertised(s.recv, t)))
  {
    ClearIsEmptied(s, o, t, u, true, e.sent, e.timedOut, true);
    UpdateHistoryKeeps(s, o, t, u, true, e.sent, e.timedOut);
    AckGoesOut(s.(history := None), o, t, u, e.ackRequest);
  }

  /** What a handler reads from a segment: the rest of the handler sends, or changes the state. */
  predicate ReadsAs(s1: Socket, s': Socket) {
    && s'.una == s1.una && s'.nxt == s1.nxt && s'.recv == s1.recv && s'.delivered == s1.delivered
    && s'.app == s1.app && s'.appRecvLen == s1.appRecvLen && s'.receiving == s1.receiving
    && s'.waiting == s1.waiting && s'.fault == s1.fault && s'.written == s1.written
    && s'.finReceived == s1.finReceived && s'.finSeq == s1.finSeq && (s1.ackTriggered ==> s'.ackTriggered)
  }

  lemma FinAckReads(ar: Arith, s: Socket, q: Request)
    ensures ReadsAs(s, SendFinAck(ar, s, q))
    ensures ReadsAs(s, FinComplete(ar, s, q))
  {
    QuietSteps(ar, s, q, false, false, false);
  }

  lemma EstablishedReads(ar: Arith, s: Socket, g: Segment, q: Request)
    requires !g.syn
    ensures ReadsAs(TakeIn(ar, s, g), Established(ar, s, g, q))
  {
    var s1 := TakeIn(ar, s, g);
    TailReads(ar, UpdateSendWindow(ar, s1, g), q);
    assert ReadsAs(s1, UpdateSendWindow(ar, s1, g));
  }

  lemma TailReads(ar: Arith, s: Socket, q: Request)
    ensures ReadsAs(s, EstablishedTail(ar, s, q))
  {
    FinAckReads(ar, s, q);
  }

  lemma FinWaitReads(ar: Arith, s: Socket, g: Segment, q: Request)
    requires !g.syn
    ensures ReadsAs(TakeIn(ar, s, g), FinWait1(ar, s, g, q))
    ensures ReadsAs(HandleData(HandleFin(ar, s, g), g), FinWait2(ar, s, g, q))
  {
    FinAckReads(ar, TakeIn(ar, s, g), q);
    FinAckReads(ar, HandleData(HandleFin(ar, s, g), g), q);
  }

  lemma LastStatesRead(ar: Arith, s: Socket, g: Segment, q: Request)
    requires !g.syn
    ensures ReadsAs(HandleAckOf(ar, s, g), CloseWait(ar, s, g, q))
    ensures ReadsAs(HandleAckOf(ar, s, g), LastAck(ar, s, g, q))
    ensures ReadsAs(HandleAckOf(ar, s, g), Closing(ar, s, g, q))
    ensures ReadsAs(s, TimeWait(ar, s, g, q))
  {
    FinAckReads(ar, HandleAckOf(ar, s, g), q);
    FinAckReads(ar, s, q);
  }

  /** Which states read acknowledgements. */
  predicate ReadsAcks(s: Socket) {
    s.state !in {FINWAIT2, TIMEWAIT, CLOSED}
  }

  lemma OpenStatesAck(s: Socket, g: Segment, q: Request)
    requires !g.syn && s.state in {ESTABLISHED, FINWAIT1, FINWAIT2}
    ensures var s' := Input(Unbounded, s, g, q);
            s'.nxt == s.nxt && s'.una == if ReadsAcks(s) then HandleAckOf(Unbounded, s, g).una else s.una
  {
    TakenUna(s, g);
    if s.state == ESTABLISHED {
      EstablishedReads(Unbounded, s, g, q);
    } else {
      FinWaitReads(Unbounded, s, g, q);
    }
  }

  lemma TakenUna(s: Socket, g: Segment)
    ensures var s1 := TakeIn(Unbounded, s, g); s1.una == HandleAckOf(Unbounded, s, g).una && s1.nxt == s.nxt
    ensures var s1 := HandleData(HandleFin(Unbounded, s, g), g); s1.una == s.una && s1.nxt == s.nxt
  {
  }

  lemma LastStatesAck(s: Socket, g: Segment, q: Request)
    requires !g.syn && s.state in {CLOSEWAIT, LASTACK, CLOSING}
    ensures var s' := Input(Unbounded, s, g, q);
            s'.nxt == s.nxt && s'.una == HandleAckOf(Unbounded, s, g).una
  {
    var s1 := HandleAckOf(Unbounded, s, g);
    LastStatesRead(Unbounded, s, g, q);
    assert ReadsAs(s1, Input(Unbounded, s, g, q));
  }

  lemma EndStatesAck(s: Socket, g: Segment, q: Request)
    requires !g.syn && s.state !in {ESTABLISHED, FINWAIT1, FINWAIT2, CLOSEWAIT, LASTACK, CLOSING}
    ensures var s' := Input(Unbounded, s, g, q); s'.nxt == s.nxt && s'.una == s.una
  {
    LastStatesRead(Unbounded, s, g, q);
  }

  /** The register of the first unacknowledged number moves to the number a segment acknowledges,
      and never back, in every state. */
  lemma AckIsTaken(s: Socket, o: Socket, t: Terms, u: Terms, g: Segment, q: Request)
    requires Good(s, o, t, u) && g in o.wire && !g.syn
    ensures var s' := Input(Unbounded, s, g, q);
            s'.nxt == s.nxt && s'.una == if g.ackno > s.una then g.ackno else s.una
  {
    assert AckSegment(IntakeOf(o).Acked(), u.wmax, g);
    assert EndPoint(s.una, s.nxt, g);
    if s.state in {ESTABLISHED, FINWAIT1, FINWAIT2} {
      OpenStatesAck(s, g, q);
    } else if s.state in {CLOSEWAIT, LASTACK, CLOSING} {
      LastStatesAck(s, g, q);
    } else {
      EndStatesAck(s, g, q);
    }
  }

  /** What becomes of a data segment: taken, or dropped. */
  predicate DataTaken(s: Socket, g: Segment, s': Socket) {
    && s'.ackTriggered && s'.delivered == s.delivered && s'.app == s.app && s'.appRecvLen == s.appRecvLen
    && s'.waiting == s.waiting && s'.receiving == s.receiving && s'.fault == s.fault
    && (s.recv.head.None? && g.seqno == s.recv.first ==>
          s'.recv == RecvBuf(Some(Element(g.seqno, g.payload)), s.recv.first, s.recv.push || g.psh))
    && (s.recv.head.Some? || g.seqno != s.recv.first ==> s'.recv == s.recv)
  }

  /** A data segment that starts at the next expected number is taken when the one buffer element
      is free; any other is dropped.  Both are acknowledged, and nothing reaches the application
      before it reads. */
  lemma DataIsTaken(s: Socket, g: Segment, q: Request)
    requires !g.syn && g.payload != [] && s.state in {ESTABLISHED, FINWAIT1, FINWAIT2}
    ensures DataTaken(s, g, Input(Unbounded, s, g, q))
  {
    HandledIsTaken(s, g);
    if s.state == ESTABLISHED {
      EstablishedReads(Unbounded, s, g, q);
    } else {
      FinWaitReads(Unbounded, s, g, q);
    }
  }

  lemma HandledIsTaken(s: Socket, g: Segment)
    requires g.payload != []
    ensures DataTaken(s, g, TakeIn(Unbounded, s, g))
    ensures DataTaken(s, g, HandleData(HandleFin(Unbounded, s, g), g))
  {
  }

  /** An acknowledgement is owed for data, whether it was taken or not, and in ESTABLISHED while the
      receive buffer is full. */
  lemma AckIsOwedIff(s: Socket, o: Socket, t: Terms, u: Terms, g: Segment, q: Request)
    requires Good(s, o, t, u) && g in o.wire && !g.syn && s.state in {ESTABLISHED, FINWAIT1, FINWAIT2}
    ensures var s' := Input(Unbounded, s, g, q);
            s'.ackTriggered <==> s.ackTriggered || g.payload != []
                                 || (s.state == ESTABLISHED && |s'.recv.Bytes()| == t.wmax)
  {
    if s.state == ESTABLISHED {
      TakeInKeeps(s, o, t, u, g);
      UpdateSendWindowKeeps(TakeIn(Unbounded, s, g), o, t, u, g);
      TakenOwes(s, g);
      TailOwes(UpdateSendWindow(Unbounded, TakeIn(Unbounded, s, g), g), o, t, u, q);
    } else {
      FinWaitOwes(s, g, q);
    }
  }

  lemma TakenOwes(s: Socket, g: Segment)
    ensures TakeIn(Unbounded, s, g).ackTriggered <==> s.ackTriggered || g.payload != []
    ensures HandleData(HandleFin(Unbounded, s, g), g).ackTriggered <==> s.ackTriggered || g.payload != []
    ensures var s1 := TakeIn(Unbounded, s, g); UpdateSendWindow(Unbounded, s1, g).ackTriggered == s1.ackTriggered
  {
  }

  lemma FinWaitOwes(s: Socket, g: Segment, q: Request)
    requires !g.syn
    ensures FinWait1(Unbounded, s, g, q).ackTriggered <==> s.ackTriggered || g.payload != []
    ensures FinWait2(Unbounded, s, g, q).ackTriggered <==> s.ackTriggered || g.payload != []
  {
    TakenOwes(s, g);
    FinCompleteFrame(TakeIn(Unbounded, s, g), q);
    FinCompleteFrame(HandleData(HandleFin(Unbounded, s, g), g), q);
  }

  lemma FinCompleteFrame(s: Socket, q: Request)
    ensures var s' := FinComplete(Unbounded, s, q); s' == s.(history := s'.history, wire := s'.wire)
  {
    QuietSteps(Unbounded, s, q, false, false, false);
  }

  lemma TailOwes(s: Socket, o: Socket, t: Terms, u: Terms, q: Request)
    requires Good(s, o, t, u) && s.state == ESTABLISHED
    ensures var s' := EstablishedTail(Unbounded, s, q);
            s'.recv == s.recv && (s'.ackTriggered <==> s.ackTriggered || |s.recv.Bytes()| == t.wmax)
  {
    FinCompleteFrame(s, q);
    WindowFits(s, IntakeOf(s), t.wmax);
    var s1 := FinComplete(Unbounded, s, q);
    var s2 := if FinReady(Unbounded, s) then s1.(state := CLOSEWAIT) else s1;
    assert ReceiveWindow(s2) == ReceiveWindow(s);
  }

  /** With nothing unacknowledged, owed or pending, a pass sends nothing. */
  lemma NothingDueNothingSent(s: Socket, o: Socket, t: Terms, u: Terms, e: Quiet)
    requires Good(s, o, t, u) && s.una == s.nxt && !s.ackTriggered && (Sending(s) ==> s.app == [])
    ensures InputQuiet(Unbounded, s, e).wire == s.wire
  {
    UpdateSendsNothing(s, o, t, u, e);
    var s1 := UpdateHistory(Unbounded, s, true, e.sent, e.timedOut);
    if s.state == ESTABLISHED {
      EstablishedRests(s1, e);
    }
  }

  lemma UpdateSendsNothing(s: Socket, o: Socket, t: Terms, u: Terms, e: Quiet)
    requires Good(s, o, t, u) && s.una == s.nxt
    ensures var s1 := UpdateHistory(Unbounded, s, true, e.sent, e.timedOut); s1 == s.(history := s1.history)
  {
  }

  lemma EstablishedRests(s: Socket, e: Quiet)
    requires !s.ackTriggered && (s.waiting && !s.receiving ==> s.app == [])
    ensures EstablishedBusy(Unbounded, s, e).wire == s.wire
  {
    if s.receiving && |s.recv.Bytes()| > 0 {
      var s1 := ReadOut(Unbounded, s, if |s.recv.Bytes()| > |s.app| then |s.app| else |s.recv.Bytes()|);
      assert ProcessAck(Unbounded, s1, e.ackRequest) == s1;
    }
  }

  // ---------------------------------------------------------------- data

  /** The largest piece that the window, the pending bytes and the segment size allow; one byte
      when the window is closed. */
  predicate Piece(s: Socket, len: nat) {
    if s.sendWindow == 0 then len == 1
    else
      && 0 < len <= s.sendWindow && len <= |s.app| && len <= s.mss
      && (len == s.sendWindow || len == |s.app| || len == s.mss)
  }

  /** The data segment, and the socket that sent it. */
  predicate Sent(s: Socket, s': Socket, t: Terms, len: nat)
    requires len <= |s.app|
  {
    var g := Segment(s.nxt, IntakeOf(s).ackNum, false, false, len == |s.app|, true,
                     Advertised(s.recv, t), s.app[..len]);
    s' == s.(nxt := s.nxt + len, app := s.app[len..], wire := s.wire + [g], history := Some(Record(g, true)),
             sendWindow := if s.sendWindow == 0 then 0 else s.sendWindow - len)
  }

  lemma WindowLowered(window: int, len: nat)
    requires 0 <= window <= MAX_WINDOW && (len <= window || window == 0)
    ensures LowerWindow(window, len) == if window == 0 then 0 else window - len
  {
  }

  lemma SegmentGoesOut(s: Socket, o: Socket, t: Terms, u: Terms, len: nat, q: Request)
    requires Good(s, o, t, u) && s.state != CLOSED && s.history.None? && q.mem
    requires len <= |s.app| && (len <= s.sendWindow || s.sendWindow == 0)
    ensures SendSegment(Unbounded, s, len, q).1 && Sent(s, SendSegment(Unbounded, s, len, q).0, t, len)
  {
    assert RequestBuffer(Unbounded, s, q) == (s, true);
    WindowFits(s, IntakeOf(s), t.wmax);
    WindowLowered(s.sendWindow, len);
    TransmittedIsSent(s, t, len);
  }

  lemma TransmittedIsSent(s: Socket, t: Terms, len: nat)
    requires len <= |s.app| && ReceiveWindow(s) == Advertised(s.recv, t)
    requires LowerWindow(s.sendWindow, len) == if s.sendWindow == 0 then 0 else s.sendWindow - len
    ensures Sent(s, TransmitData(Unbounded, s, len), t, len)
  {
  }

  lemma PieceGoesOut(s: Socket, o: Socket, t: Terms, u: Terms, q: Request, due: bool) returns (len: nat)
    requires Good(s, o, t, u) && s.state != CLOSED && s.history.None? && q.mem && s.app != []
    ensures len <= |s.app| && Piece(s, len) && Sent(s, ProcessSendData(Unbounded, s, q, due), t, len)
  {
    len := if s.sendWindow == 0 then 1 else Min3(s.sendWindow, |s.app|, s.mss);
    SegmentGoesOut(s, o, t, u, len, q);
    var s1 := SendSegment(Unbounded, s, len, q).0;
    if s.sendWindow > 0 {
      assert Unacked(Unbounded, s1);
      NoBuffer(Unbounded, s1, q);
      assert SendLoop(Unbounded, s1, q) == s1;
    }
  }

  /** A pass of `write`. */
  lemma WritePass(s: Socket, e: Quiet, s1: Socket)
    requires Sending(s) && s1 == UpdateHistory(Unbounded, s, true, e.sent, e.timedOut)
    ensures var s2 := if s.state == ESTABLISHED then ProcessAck(Unbounded, s1, e.ackRequest) else s1;
            InputQuiet(Unbounded, s, e) == FinishWrite(ProcessSendData(Unbounded, s2, e.dataRequest, e.due))
  {
    QuietSteps(Unbounded, s, e.ackRequest, true, e.sent, e.timedOut);
  }

  /** With bytes pending and everything before them acknowledged, a pass of `write` that can have a
      buffer sends exactly one segment: the next piece, pushed when it is the last, with the
      current acknowledgement and window. */
  lemma PendingDataIsSent(s: Socket, o: Socket, t: Terms, u: Terms, e: Quiet) returns (len: nat)
    requires Good(s, o, t, u) && Sending(s) && s.app != []
    requires Clear(s, e.sent) && e.dataRequest.mem && !(s.state == ESTABLISHED && s.ackTriggered)
    ensures len <= |s.app| && Piece(s, len) && Sent(s, InputQuiet(Unbounded, s, e), t, len)
  {
    ClearIsEmptied(s, o, t, u, true, e.sent, e.timedOut, true);
    UpdateHistoryKeeps(s, o, t, u, true, e.sent, e.timedOut);
    var s1 := s.(history := None);
    WritePass(s, e, s1);
    len := PieceGoesOut(s1, o, t, u, e.dataRequest, e.due);
    SentWaits(s1, ProcessSendData(Unbounded, s1, e.dataRequest, e.due), t, len);
    SentOnTop(s, s1, ProcessSendData(Unbounded, s1, e.dataRequest, e.due), t, len);
  }

  lemma SentWaits(s: Socket, s': Socket, t: Terms, len: nat)
    requires len <= |s.app| && Sent(s, s', t, len)
    ensures FinishWrite(s') == s'
  {
  }

  lemma SentOnTop(s: Socket, s1: Socket, s': Socket, t: Terms, len: nat)
    requires len <= |s.app| && s1 == s.(history := None) && Sent(s1, s', t, len)
    ensures Sent(s, s', t, len)
  {
  }

  /** The record after a pending acknowledgement had its turn. */
  lemma AckOccupies(s: Socket, o: Socket, t: Terms, u: Terms, q: Request)
    requires Good(s, o, t, u)
    ensures var s' := ProcessAck(Unbounded, s, q);
            s'.history.None? <==> if s.ackTriggered then Clear(s, q.sent) && !q.mem else s.history.None?
    ensures var s' := ProcessAck(Unbounded, s, q);
            s' == s.(history := s'.history, wire := s'.wire, ackTriggered := false)
  {
    var s1 := s.(ackTriggered := false);
    QuietSteps(Unbounded, s1, q, false, false, false);
    if s.ackTriggered {
      FrameKeeps(s, s1, o, t, u);
      ClearIsEmptied(s1, o, t, u, false, q.sent, false, q.mem);
    }
  }

  lemma UpdatedIsClear(s: Socket, o: Socket, t: Terms, u: Terms, e: Quiet, sent: bool)
    requires Good(s, o, t, u)
    ensures var s1 := UpdateHistory(Unbounded, s, true, e.sent, e.timedOut);
            Clear(s1, sent) <==> Clear(s, e.sent || sent)
  {
  }

  /** `write` returns with the pass that finds nothing pending, everything acknowledged, and no
      acknowledgement of its own to send. */
  lemma WriteReturnsIff(s: Socket, o: Socket, t: Terms, u: Terms, e: Quiet)
    requires Good(s, o, t, u) && Sending(s)
    ensures !InputQuiet(Unbounded, s, e).waiting <==>
            && s.app == []
            && if s.state == ESTABLISHED && s.ackTriggered
               then Clear(s, e.sent || e.ackRequest.sent) && !e.ackRequest.mem
               else Clear(s, e.sent)
  {
    ClearIsEmptied(s, o, t, u, true, e.sent, e.timedOut, true);
    UpdateHistoryKeeps(s, o, t, u, true, e.sent, e.timedOut);
    UpdatedIsClear(s, o, t, u, e, e.ackRequest.sent);
    var s1 := UpdateHistory(Unbounded, s, true, e.sent, e.timedOut);
    WritePass(s, e, s1);
    if s.state == ESTABLISHED {
      AckOccupies(s1, o, t, u, e.ackRequest);
      WriteEnds(ProcessAck(Unbounded, s1, e.ackRequest), e.dataRequest, e.due);
    } else {
      WriteEnds(s1, e.dataRequest, e.due);
    }
  }

  lemma WriteEnds(s: Socket, q: Request, due: bool)
    requires s.waiting
    ensures !FinishWrite(ProcessSendData(Unbounded, s, q, due)).waiting <==> s.app == [] && s.history.None?
  {
    DataOnlySends(Unbounded, s, q, due);
  }
}
