/** The end of a connection: who answers a FIN, and which step leads from which state to which
    (section 3.9 and figure 6 of RFC 793). */
module TcpStates {
  import opened Basics
  import opened SerialNumbers
  import opened TcpModel
  import opened TcpInvariant
  import opened TcpSteps
  import opened TcpSystem
  import opened TcpTheorems
  import opened TcpResponses

  predicate Open(s: Socket) {
    s.state in {ESTABLISHED, FINWAIT1, FINWAIT2}
  }

  // ---------------------------------------------------------------- the answer to a FIN

  /** A segment that must be answered by the acknowledgement of the peer's FIN. */
  predicate WantsFinAck(s: Socket, g: Segment) {
    if Open(s) then s.finReceived || g.fin
    else g.fin && s.state in {CLOSEWAIT, CLOSING, TIMEWAIT}
  }

  /** Everything sent is acknowledged, the interface has finished with a pure acknowledgement, and
      there is memory. */
  predicate CanSend(una: int, nxt: int, history: Option<Record>, q: Request) {
    una == nxt && (history.Some? && !history.value.timed ==> q.sent) && q.mem
  }

  /** The acknowledgement of the peer's FIN, if one is called for and can be sent. */
  function FinAnswer(s: Socket, t: Terms, wanted: bool, q: Request): seq<Segment> {
    if wanted && CanSend(s.una, s.nxt, s.history, q)
    then [PureAck(s.nxt, s.finSeq + 1, Advertised(s.recv, t))] else []
  }

  lemma AckTransmitted(s: Socket, ack: int, q: Request, window: int)
    requires RequestBuffer(Unbounded, s, q) == (s.(history := None), true)
    requires ReceiveWindow(s) == window
    ensures SendAck(Unbounded, s, ack, q).wire == s.wire + [PureAck(s.nxt, ack, window)]
  {
  }

  lemma AckIsSent(s: Socket, o: Socket, t: Terms, u: Terms, ack: int, q: Request)
    requires Good(s, o, t, u) && s.state != CLOSED
    ensures var s' := SendAck(Unbounded, s, ack, q);
            && s' == s.(history := s'.history, wire := s'.wire)
            && s'.wire == s.wire + if CanSend(s.una, s.nxt, s.history, q)
                                   then [PureAck(s.nxt, ack, Advertised(s.recv, t))] else []
  {
    ClearIsEmptied(s, o, t, u, false, q.sent, false, q.mem);
    QuietSteps(Unbounded, s, q, false, false, false);
    if CanSend(s.una, s.nxt, s.history, q) {
      WindowFits(s, IntakeOf(s), t.wmax);
      AckTransmitted(s, ack, q, Advertised(s.recv, t));
    } else {
      assert s.wire + [] == s.wire;
    }
  }

  lemma FinAckGoesOut(s: Socket, o: Socket, t: Terms, u: Terms, q: Request)
    requires Good(s, o, t, u) && s.state != CLOSED
    ensures SendFinAck(Unbounded, s, q).wire == s.wire + FinAnswer(s, t, true, q)
    ensures SendFinAck(Unbounded, s, q).state == s.state
  {
    AckIsSent(s, o, t, u, s.finSeq + 1, q);
  }

  lemma FinIsReady(s: Socket, o: Socket, t: Terms, u: Terms)
    requires Good(s, o, t, u)
    ensures FinReady(Unbounded, s) <==> s.finReceived
  {
  }

  lemma FinCompleteGoesOut(s: Socket, o: Socket, t: Terms, u: Terms, q: Request)
    requires Good(s, o, t, u) && s.state != CLOSED
    ensures FinComplete(Unbounded, s, q).wire == s.wire + FinAnswer(s, t, s.finReceived, q)
    ensures FinComplete(Unbounded, s, q).state == s.state
  {
    FinIsReady(s, o, t, u);
    if s.finReceived {
      FinAckGoesOut(s, o, t, u, q);
      QuietSteps(Unbounded, s, q, false, false, false);
    } else {
      assert s.wire + [] == s.wire;
    }
  }

  /** What taking in a segment does not touch, and its FIN. */
  predicate FinTaken(s: Socket, s1: Socket, g: Segment) {
    && s1.state == s.state && s1.nxt == s.nxt && s1.history == s.history && s1.wire == s.wire
    && s1.finReceived == (s.finReceived || g.fin)
  }

  lemma TakenFin(s: Socket, g: Segment)
    requires !g.syn
    ensures FinTaken(s, TakeIn(Unbounded, s, g), g)
    ensures FinTaken(s, HandleData(HandleFin(Unbounded, s, g), g), g)
    ensures FinTaken(s, UpdateSendWindow(Unbounded, TakeIn(Unbounded, s, g), g), g)
  {
  }

  /** What one handler does about the FIN: the state afterwards, and the answer. */
  predicate FinHandled(s: Socket, s': Socket, t: Terms, g: Segment, q: Request, st: State) {
    && s'.state == st
    && s'.wire == s.wire + FinAnswer(s'.(nxt := s.nxt, history := s.history), t, WantsFinAck(s, g), q)
    && (!WantsFinAck(s, g) ==> s'.history == s.history)
  }

  lemma HandledAs(s: Socket, s1: Socket, s': Socket, t: Terms, g: Segment, q: Request, st: State)
    requires FinTaken(s, s1, g) && ReadsAs(s1, s') && Open(s)
    requires s'.wire == s1.wire + FinAnswer(s1, t, s1.finReceived, q) && s'.state == st
    requires !s1.finReceived ==> s'.history == s1.history
    ensures FinHandled(s, s', t, g, q, st)
  {
  }

  lemma EstablishedFin(s: Socket, o: Socket, t: Terms, u: Terms, g: Segment, q: Request)
    requires Good(s, o, t, u) && g in o.wire && !g.syn && s.state == ESTABLISHED
    ensures FinHandled(s, Established(Unbounded, s, g, q), t, g, q,
                       if s.finReceived || g.fin then CLOSEWAIT else ESTABLISHED)
  {
    TakeInKeeps(s, o, t, u, g);
    UpdateSendWindowKeeps(TakeIn(Unbounded, s, g), o, t, u, g);
    TakenFin(s, g);
    var s2 := UpdateSendWindow(Unbounded, TakeIn(Unbounded, s, g), g);
    TailFin(s2, o, t, u, q);
    TailReads(Unbounded, s2, q);
    HandledAs(s, s2, EstablishedTail(Unbounded, s2, q), t, g, q, if s.finReceived || g.fin then CLOSEWAIT else ESTABLISHED);
  }

  lemma TailFin(s: Socket, o: Socket, t: Terms, u: Terms, q: Request)
    requires Good(s, o, t, u) && s.state == ESTABLISHED
    ensures var s' := EstablishedTail(Unbounded, s, q);
            && s'.wire == s.wire + FinAnswer(s, t, s.finReceived, q)
            && (!s.finReceived ==> s'.history == s.history)
            && s'.state == if s.finReceived then CLOSEWAIT else ESTABLISHED
  {
    FinIsReady(s, o, t, u);
    FinCompleteGoesOut(s, o, t, u, q);
  }

  lemma FinWait1Fin(s: Socket, o: Socket, t: Terms, u: Terms, g: Segment, q: Request)
    requires Good(s, o, t, u) && g in o.wire && !g.syn && s.state == FINWAIT1
    ensures FinHandled(s, FinWait1(Unbounded, s, g, q), t, g, q,
                       if s.finReceived || g.fin then (if g.ackno == s.nxt then TIMEWAIT else CLOSING) else FINWAIT1)
  {
    assert AckSegment(IntakeOf(o).Acked(), u.wmax, g);
    TakeInKeeps(s, o, t, u, g);
    TakenFin(s, g);
    var s1 := TakeIn(Unbounded, s, g);
    FinWaitReads(Unbounded, s, g, q);
    FinWaitFin(s1, o, t, u, q);
    HandledAs(s, s1, FinWait1(Unbounded, s, g, q), t, g, q,
              if s.finReceived || g.fin then (if g.ackno == s.nxt then TIMEWAIT else CLOSING) else FINWAIT1);
  }

  lemma FinWaitFin(s: Socket, o: Socket, t: Terms, u: Terms, q: Request)
    requires Good(s, o, t, u) && s.state != CLOSED
    ensures FinReady(Unbounded, s) <==> s.finReceived
    ensures (if s.finReceived then FinComplete(Unbounded, s, q) else s).wire
         == s.wire + FinAnswer(s, t, s.finReceived, q)
  {
    FinIsReady(s, o, t, u);
    FinCompleteGoesOut(s, o, t, u, q);
    assert s.wire + [] == s.wire;
  }

  lemma FinWait2Fin(s: Socket, o: Socket, t: Terms, u: Terms, g: Segment, q: Request)
    requires Good(s, o, t, u) && g in o.wire && !g.syn && s.state == FINWAIT2
    ensures FinHandled(s, FinWait2(Unbounded, s, g, q), t, g, q,
                       if s.finReceived || g.fin then TIMEWAIT else FINWAIT2)
  {
    FinAndDataKeep(s, o, t, u, g);
    TakenFin(s, g);
    var s1 := HandleData(HandleFin(Unbounded, s, g), g);
    FinWaitReads(Unbounded, s, g, q);
    FinWaitFin(s1, o, t, u, q);
    HandledAs(s, s1, FinWait2(Unbounded, s, g, q), t, g, q, if s.finReceived || g.fin then TIMEWAIT else FINWAIT2);
  }

  lemma AnswerFinFin(s: Socket, o: Socket, t: Terms, u: Terms, g: Segment, q: Request)
    requires Good(s, o, t, u) && g in o.wire && !g.syn && s.state in {CLOSEWAIT, CLOSING}
    ensures FinHandled(s, AnswerFin(Unbounded, s, g, q), t, g, q, s.state)
  {
    HandleAckKeeps(s, o, t, u, g);
    var s1 := HandleAckOf(Unbounded, s, g);
    FinAckReads(Unbounded, s1, q);
    if g.fin {
      FinAckGoesOut(s1, o, t, u, q);
      AnsweredAs(s, s1, SendFinAck(Unbounded, s1, q), t, g, q);
    } else {
      assert s.wire + [] == s.wire;
    }
  }

  lemma AnsweredAs(s: Socket, s1: Socket, s': Socket, t: Terms, g: Segment, q: Request)
    requires s1 == s.(una := s1.una) && ReadsAs(s1, s') && s.state in {CLOSEWAIT, CLOSING, TIMEWAIT} && g.fin
    requires s'.wire == s1.wire + FinAnswer(s1, t, true, q) && s'.state == s.state
    ensures FinHandled(s, s', t, g, q, s.state)
  {
  }

  lemma TimeWaitFin(s: Socket, o: Socket, t: Terms, u: Terms, g: Segment, q: Request)
    requires Good(s, o, t, u) && !g.syn && s.state == TIMEWAIT
    ensures FinHandled(s, TimeWait(Unbounded, s, g, q), t, g, q, s.state)
  {
    FinAckReads(Unbounded, s, q);
    if g.fin {
      FinAckGoesOut(s, o, t, u, q);
      AnsweredAs(s, s, SendFinAck(Unbounded, s, q), t, g, q);
    } else {
      assert s.wire + [] == s.wire;
    }
  }

  /** Where a segment leads.  The peer's FIN is complete when it comes: nothing before it is
      missing. */
  function StateAfter(s: Socket, g: Segment): State {
    if !Open(s) || !(s.finReceived || g.fin) then s.state
    else if s.state == ESTABLISHED then CLOSEWAIT
    else if s.state == FINWAIT1 && g.ackno != s.nxt then CLOSING
    else TIMEWAIT
  }

  /** Every segment of the peer leads to exactly that state, and sends exactly that answer. */
  lemma SegmentMoves(s: Socket, o: Socket, t: Terms, u: Terms, g: Segment, q: Request)
    requires Good(s, o, t, u) && g in o.wire && !g.syn
    ensures FinHandled(s, Input(Unbounded, s, g, q), t, g, q, StateAfter(s, g))
  {
    match s.state
    case CLOSED => SilentState(s, t, g, q);
    case ESTABLISHED => EstablishedFin(s, o, t, u, g, q);
    case FINWAIT1 => FinWait1Fin(s, o, t, u, g, q);
    case FINWAIT2 => FinWait2Fin(s, o, t, u, g, q);
    case CLOSEWAIT => CloseWaitFin(s, o, t, u, g, q);
    case LASTACK => SilentState(s, t, g, q);
    case CLOSING => AnswerFinFin(s, o, t, u, g, q);
    case TIMEWAIT => TimeWaitFin(s, o, t, u, g, q);
  }

  lemma CloseWaitFin(s: Socket, o: Socket, t: Terms, u: Terms, g: Segment, q: Request)
    requires Good(s, o, t, u) && g in o.wire && !g.syn && s.state == CLOSEWAIT
    ensures FinHandled(s, CloseWait(Unbounded, s, g, q), t, g, q, CLOSEWAIT)
  {
    AnswerFinFin(s, o, t, u, g, q);
    WindowAside(s, AnswerFin(Unbounded, s, g, q), t, g, q);
  }

  lemma WindowAside(s: Socket, s1: Socket, t: Terms, g: Segment, q: Request)
    requires FinHandled(s, s1, t, g, q, CLOSEWAIT)
    ensures FinHandled(s, UpdateSendWindow(Unbounded, s1, g), t, g, q, CLOSEWAIT)
  {
  }

  lemma SilentState(s: Socket, t: Terms, g: Segment, q: Request)
    requires !g.syn && s.state in {CLOSED, LASTACK}
    ensures FinHandled(s, Input(Unbounded, s, g, q), t, g, q, s.state)
  {
    assert s.wire + [] == s.wire;
  }

  /** A SYN is answered by the current acknowledgement, of the FIN too once it came, and changes
      neither the state nor any register. */
  lemma SynIsAnswered(s: Socket, o: Socket, t: Terms, u: Terms, g: Segment, q: Request)
    requires Good(s, o, t, u) && g.syn && s.state != CLOSED
    ensures var s' := Input(Unbounded, s, g, q);
            && s' == s.(history := s'.history, wire := s'.wire, ackTriggered := !Open(s) && s.ackTriggered)
            && s'.wire == s.wire + if CanSend(s.una, s.nxt, s.history, q)
                                   then [PureAck(s.nxt, if Open(s) then IntakeOf(s).ackNum else s.finSeq + 1,
                                                 Advertised(s.recv, t))]
                                   else []
  {
    var s1 := if Open(s) then s.(ackTriggered := false) else s;
    var ack := if Open(s) then IntakeOf(s).ackNum else s.finSeq + 1;
    assert Input(Unbounded, s, g, q) == SendAck(Unbounded, s1, ack, q);
    FrameKeeps(s, s1, o, t, u);
    AckIsSent(s1, o, t, u, ack, q);
  }

  // ---------------------------------------------------------------- the end of the connection

  /** Where a pass without a segment leads. */
  predicate QuietMoves(s: Socket, s': Socket, e: Quiet) {
    match s.state
    case CLOSED => s'.state == CLOSED && !s'.waiting
    case ESTABLISHED => s'.state == ESTABLISHED
    case CLOSEWAIT => s'.state == CLOSEWAIT
    case FINWAIT1 =>
      var gone := if s.ackTriggered then Clear(s, e.sent || e.ackRequest.sent) && !e.ackRequest.mem else Clear(s, e.sent);
      s'.state == if gone then FINWAIT2 else FINWAIT1
    case FINWAIT2 => s'.state == FINWAIT2
    case CLOSING => s'.state == if Clear(s, e.sent) then TIMEWAIT else CLOSING
    case LASTACK => s'.state == if Clear(s, e.sent) then CLOSED else LASTACK
    case TIMEWAIT => s'.state == if e.expired then CLOSED else TIMEWAIT
  }

  lemma DataPassMoves(s: Socket, e: Quiet)
    requires s.state in {ESTABLISHED, CLOSEWAIT, FINWAIT2}
    ensures InputQuiet(Unbounded, s, e).state == s.state
  {
    QuietSteps(Unbounded, s, e.ackRequest, true, e.sent, e.timedOut);
    var s1 := UpdateHistory(Unbounded, s, true, e.sent, e.timedOut);
    EstablishedStays(s1, e);
    CloseWaitStays(s1, e);
    AckStays(s1, e.ackRequest);
  }

  lemma FinWait1Moves(s: Socket, o: Socket, t: Terms, u: Terms, e: Quiet)
    requires Good(s, o, t, u) && s.state == FINWAIT1
    ensures QuietMoves(s, FinWait1Quiet(Unbounded, s, e), e)
  {
    ClearIsEmptied(s, o, t, u, true, e.sent, e.timedOut, true);
    UpdateHistoryKeeps(s, o, t, u, true, e.sent, e.timedOut);
    UpdatedIsClear(s, o, t, u, e, e.ackRequest.sent);
    AckOccupies(UpdateHistory(Unbounded, s, true, e.sent, e.timedOut), o, t, u, e.ackRequest);
  }

  /** A connection that ends leaves no call, no pending byte and no record behind. */
  predicate Ended(s: Socket) {
    s.state == CLOSED && !s.waiting && !s.receiving && s.app == [] && s.history.None?
  }

  lemma LastPassMoves(s: Socket, o: Socket, t: Terms, u: Terms, e: Quiet)
    requires Good(s, o, t, u) && s.state in {CLOSING, LASTACK, TIMEWAIT}
    ensures QuietMoves(s, InputQuiet(Unbounded, s, e), e)
    ensures InputQuiet(Unbounded, s, e).state == CLOSED ==> Ended(InputQuiet(Unbounded, s, e))
  {
    ClearIsEmptied(s, o, t, u, true, e.sent, e.timedOut, true);
    QuietSteps(Unbounded, s, e.ackRequest, true, e.sent, e.timedOut);
  }

  lemma PassMoves(s: Socket, o: Socket, t: Terms, u: Terms, e: Quiet)
    requires Good(s, o, t, u)
    ensures QuietMoves(s, InputQuiet(Unbounded, s, e), e)
    ensures s.state != CLOSED && InputQuiet(Unbounded, s, e).state == CLOSED ==> Ended(InputQuiet(Unbounded, s, e))
  {
    if s.state in {ESTABLISHED, CLOSEWAIT, FINWAIT2} {
      DataPassMoves(s, e);
    } else if s.state == FINWAIT1 {
      FinWait1Moves(s, o, t, u, e);
    } else if s.state != CLOSED {
      LastPassMoves(s, o, t, u, e);
    }
  }

  lemma AckStays(s: Socket, q: Request)
    ensures ProcessAck(Unbounded, s, q).state == s.state
  {
    QuietSteps(Unbounded, s.(ackTriggered := false), q, false, false, false);
  }

  lemma EstablishedStays(s: Socket, e: Quiet)
    ensures EstablishedBusy(Unbounded, s, e).state == s.state
  {
    var s1 := ProcessAck(Unbounded, s, e.ackRequest);
    AckStays(s, e.ackRequest);
    if s.receiving && |s.recv.Bytes()| > 0 {
      var n := |s.recv.Bytes()|;
      AckStays(ReadOut(Unbounded, s, if n > |s.app| then |s.app| else n), e.ackRequest);
    } else {
      DataOnlySends(Unbounded, s1, e.dataRequest, e.due);
    }
  }

  lemma CloseWaitStays(s: Socket, e: Quiet)
    ensures CloseWaitBusy(Unbounded, s, e).state == s.state
  {
    DataOnlySends(Unbounded, s, e.dataRequest, e.due);
  }

  /** `close` sends its FIN, with the next number, the current acknowledgement and the current
      window, if and only if everything before it is acknowledged and a buffer can be had; only
      then does it end the sending. */
  lemma CloseSendsFin(s: Socket, o: Socket, t: Terms, u: Terms, q: Request)
    requires Good(s, o, t, u) && s.state in {ESTABLISHED, CLOSEWAIT}
    ensures var s' := BeginClose(Unbounded, s, q);
            var g := Segment(s.nxt, IntakeOf(s).ackNum, false, true, false, true, Advertised(s.recv, t), []);
            if CanSend(s.una, s.nxt, s.history, q) then
              s' == s.(nxt := s.nxt + 1, waiting := true, wire := s.wire + [g], history := Some(Record(g, true)),
                       state := if s.state == ESTABLISHED then FINWAIT1 else LASTACK)
            else s' == s.(history := s'.history)
  {
    ClearIsEmptied(s, o, t, u, false, q.sent, false, q.mem);
    QuietSteps(Unbounded, s, q, false, false, false);
    if CanSend(s.una, s.nxt, s.history, q) {
      WindowFits(s, IntakeOf(s), t.wmax);
      FinTransmitted(s, t, q);
    }
  }

  lemma FinTransmitted(s: Socket, t: Terms, q: Request)
    requires s.state in {ESTABLISHED, CLOSEWAIT} && ReceiveWindow(s) == Advertised(s.recv, t)
    requires RequestBuffer(Unbounded, s, q) == (s.(history := None), true)
    ensures var g := Segment(s.nxt, IntakeOf(s).ackNum, false, true, false, true, Advertised(s.recv, t), []);
            BeginClose(Unbounded, s, q)
            == s.(nxt := s.nxt + 1, waiting := true, wire := s.wire + [g], history := Some(Record(g, true)),
                  state := if s.state == ESTABLISHED then FINWAIT1 else LASTACK)
  {
    var s1 := s.(history := None);
    assert ReceiveWindow(s1) == ReceiveWindow(s);
  }

  /** A closed socket stays closed and sends nothing. */
  lemma ClosedIsSilent(ar: Arith, s: Socket, peer: seq<Segment>, a: Action)
    requires s.state == CLOSED
    ensures var s' := Step(ar, s, peer, a);
            s' == s.(waiting := s'.waiting) && (s'.waiting ==> s.waiting)
  {
  }
}
