/** The 32-bit engine against the unbounded one: one step of the first on truncated numbers is
    the truncation of one step of the second, as long as the numbers a delivered segment
    carries lie within one half-range of the registers they are compared with
    (section 3.3 of RFC 793). */
module TcpRefinement {
  import opened Basics
  import opened SerialNumbers
  import opened TcpModel
  import opened TcpInvariant
  import opened TcpSteps

  function TruncSegment(g: Segment): Segment {
    g.(seqno := g.seqno % MODULUS, ackno := g.ackno % MODULUS)
  }

  function TruncWire(w: seq<Segment>): seq<Segment> {
    seq(|w|, i requires 0 <= i < |w| => TruncSegment(w[i]))
  }

  function TruncHistory(h: Option<Record>): Option<Record> {
    match h
    case None => None
    case Some(r) => Some(Record(TruncSegment(r.segment), r.timed))
  }

  function TruncRecv(b: RecvBuf): RecvBuf {
    RecvBuf(match b.head
            case None => None
            case Some(e) => Some(Element(e.seqno % MODULUS, e.data)),
            b.first % MODULUS, b.push)
  }

  /** The socket as the stack stores it. */
  function Trunc(s: Socket): Socket {
    s.(una := s.una % MODULUS, nxt := s.nxt % MODULUS,
       lwseq := s.lwseq % MODULUS, lwack := s.lwack % MODULUS,
       history := TruncHistory(s.history), recv := TruncRecv(s.recv),
       finSeq := s.finSeq % MODULUS, wire := TruncWire(s.wire))
  }

  /** The segment lifetime is bounded: what `g` carries is comparable with the registers of its
      reader.  The window registers are read in two states only. */
  predicate Live(s: Socket, g: Segment) {
    g.syn || (
      && Near(g.seqno, s.recv.first) && Near(g.ackno, s.una)
      && (!FinSent(s) ==> Near(g.seqno, s.lwseq) && Near(g.ackno, s.lwack)))
  }

  // ---------------------------------------------------------------- receiving

  lemma TruncWireAppend(w: seq<Segment>, g: Segment)
    ensures TruncWire(w + [g]) == TruncWire(w) + [TruncSegment(g)]
  {
  }

  lemma AckNumCommutes(b: RecvBuf)
    ensures TruncRecv(b).AckNum(Wrapped) == b.AckNum(Unbounded) % MODULUS
  {
    if b.head.Some? {
      TruncatedSum(b.head.value.seqno, |b.head.value.data|);
    }
  }

  /** Comparisons of two registers of one socket stay inside one half-range. */
  predicate Tame(s: Socket) {
    && 0 <= s.nxt - s.una <= MAX_WINDOW + 1
    && (s.history.Some? && s.history.value.timed ==> Near(s.history.value.segment.seqno, s.una))
    && (s.finReceived ==> s.recv.AckNum(Unbounded) == s.finSeq)
  }

  lemma GoodIsTame(s: Socket, o: Socket, t: Terms, u: Terms)
    requires Good(s, o, t, u)
    ensures Tame(s)
  {
    if s.history.Some? {
      assert SentSegment(FlowOf(s, t.base), u.wmax, s.history.value.segment);
    }
  }

  /** The two tests of `handleACK` decide as they would without wrapping. */
  lemma AckDecision(ack: int, una: int, nxt: int)
    requires Near(ack, una) && 0 <= nxt - una <= MAX_WINDOW + 1 && (ack <= una || ack == nxt)
    ensures Wrapped.Leq(ack % MODULUS, una % MODULUS) == (ack <= una)
    ensures ack > una ==> !Wrapped.Gt(ack % MODULUS, nxt % MODULUS)
  {
    TruncatedDifference(ack, una);
    TruncatedDifference(ack, nxt);
  }

  lemma HandleAckCommutes(s: Socket, g: Segment)
    requires Tame(s) && EndPoint(s.una, s.nxt, g) && !g.syn && Near(g.ackno, s.una)
    ensures HandleAckOf(Wrapped, Trunc(s), TruncSegment(g)) == Trunc(HandleAckOf(Unbounded, s, g))
  {
    AckDecision(g.ackno, s.una, s.nxt);
    if g.hasAck && g.ackno > s.una {
      assert HandleAckOf(Wrapped, Trunc(s), TruncSegment(g)) == Trunc(s).(una := g.ackno % MODULUS);
      assert HandleAckOf(Unbounded, s, g) == s.(una := g.ackno);
    } else {
      assert HandleAckOf(Wrapped, Trunc(s), TruncSegment(g)) == Trunc(s);
      assert HandleAckOf(Unbounded, s, g) == s;
    }
  }

  lemma HandleFinCommutes(s: Socket, g: Segment)
    ensures HandleFin(Wrapped, Trunc(s), TruncSegment(g)) == Trunc(HandleFin(Unbounded, s, g))
  {
    TruncatedSum(g.seqno, |g.payload|);
  }

  lemma HandleDataCommutes(s: Socket, g: Segment)
    requires Near(g.seqno, s.recv.first)
    ensures HandleData(Trunc(s), TruncSegment(g)) == Trunc(HandleData(s, g))
  {
    TruncatedEquality(g.seqno, s.recv.first);
  }

  lemma UpdateSendWindowCommutes(s: Socket, g: Segment)
    requires Near(g.seqno, s.lwseq) && Near(g.ackno, s.lwack)
    ensures UpdateSendWindow(Wrapped, Trunc(s), TruncSegment(g)) == Trunc(UpdateSendWindow(Unbounded, s, g))
  {
    TruncatedDifference(g.seqno, s.lwseq);
    TruncatedEquality(g.seqno, s.lwseq);
    TruncatedDifference(g.ackno, s.lwack);
  }

  lemma FinAndDataCommute(s: Socket, g: Segment)
    requires Near(g.seqno, s.recv.first)
    ensures HandleData(HandleFin(Wrapped, Trunc(s), TruncSegment(g)), TruncSegment(g))
         == Trunc(HandleData(HandleFin(Unbounded, s, g), g))
  {
    HandleFinCommutes(s, g);
    HandleDataCommutes(HandleFin(Unbounded, s, g), g);
  }

  lemma TakeInCommutes(s: Socket, g: Segment)
    requires Tame(s) && EndPoint(s.una, s.nxt, g) && !g.syn && Live(s, g)
    ensures TakeIn(Wrapped, Trunc(s), TruncSegment(g)) == Trunc(TakeIn(Unbounded, s, g))
    ensures TakeIn(Unbounded, s, g).lwseq == s.lwseq && TakeIn(Unbounded, s, g).lwack == s.lwack
  {
    HandleAckCommutes(s, g);
    FinAndDataCommute(HandleAckOf(Unbounded, s, g), g);
  }

  lemma CopyDataCommutes(s: Socket, c: nat)
    requires s.recv.head.Some? && c <= |s.recv.head.value.data|
    ensures CopyData(Wrapped, Trunc(s), c) == Trunc(CopyData(Unbounded, s, c))
  {
    TruncatedSum(s.recv.first, c);
    TruncatedSum(s.recv.head.value.seqno, c);
  }

  // ---------------------------------------------------------------- sending

  lemma ObsoleteCommutes(r: Record, una: int, sent: bool)
    requires r.timed ==> Near(r.segment.seqno, una)
    ensures Obsolete(Wrapped, Record(TruncSegment(r.segment), r.timed), una % MODULUS, sent)
         == Obsolete(Unbounded, r, una, sent)
  {
    TruncatedDifference(r.segment.seqno, una);
  }

  lemma UpdateHistoryCommutes(s: Socket, retransmit: bool, sent: bool, timedOut: bool)
    requires Tame(s)
    ensures UpdateHistory(Wrapped, Trunc(s), retransmit, sent, timedOut)
         == Trunc(UpdateHistory(Unbounded, s, retransmit, sent, timedOut))
    ensures Tame(UpdateHistory(Unbounded, s, retransmit, sent, timedOut))
  {
    if s.history.Some? {
      ObsoleteCommutes(s.history.value, s.una, sent);
      TruncWireAppend(s.wire, s.history.value.segment);
    }
  }

  lemma RequestBufferCommutes(s: Socket, q: Request)
    requires Tame(s)
    ensures RequestBuffer(Wrapped, Trunc(s), q)
         == (Trunc(RequestBuffer(Unbounded, s, q).0), RequestBuffer(Unbounded, s, q).1)
    ensures Tame(RequestBuffer(Unbounded, s, q).0)
  {
    UpdateHistoryCommutes(s, false, q.sent, false);
  }

  lemma TransmitCommutes(s: Socket, g: Segment, timed: bool)
    ensures Transmit(Trunc(s), TruncSegment(g), timed) == Trunc(Transmit(s, g, timed))
  {
    TruncWireAppend(s.wire, g);
  }

  lemma HeaderCommutes(s: Socket, ack: int)
    ensures Header(Trunc(s), ack % MODULUS) == TruncSegment(Header(s, ack))
  {
  }

  lemma SendAckCommutes(s: Socket, ack: int, q: Request)
    requires Tame(s)
    ensures SendAck(Wrapped, Trunc(s), ack % MODULUS, q) == Trunc(SendAck(Unbounded, s, ack, q))
    ensures Tame(SendAck(Unbounded, s, ack, q))
  {
    RequestBufferCommutes(s, q);
    var (s1, ok) := RequestBuffer(Unbounded, s, q);
    if ok {
      HeaderCommutes(s1, ack);
      TransmitCommutes(s1, Header(s1, ack), false);
    }
  }

  lemma SendPendingAckCommutes(s: Socket, q: Request)
    requires Tame(s)
    ensures SendPendingAck(Wrapped, Trunc(s), q) == Trunc(SendPendingAck(Unbounded, s, q))
    ensures Tame(SendPendingAck(Unbounded, s, q))
  {
    AckNumCommutes(s.recv);
    SendAckCommutes(s.(ackTriggered := false), s.recv.AckNum(Unbounded), q);
    assert Trunc(s.(ackTriggered := false)) == Trunc(s).(ackTriggered := false);
  }

  lemma ProcessAckCommutes(s: Socket, q: Request)
    requires Tame(s)
    ensures ProcessAck(Wrapped, Trunc(s), q) == Trunc(ProcessAck(Unbounded, s, q))
    ensures Tame(ProcessAck(Unbounded, s, q))
  {
    if s.ackTriggered {
      SendPendingAckCommutes(s, q);
    }
  }

  lemma SendFinAckCommutes(s: Socket, q: Request)
    requires Tame(s)
    ensures SendFinAck(Wrapped, Trunc(s), q) == Trunc(SendFinAck(Unbounded, s, q))
  {
    var w := Trunc(s);
    TruncatedSum(s.finSeq, 1);
    assert Wrapped.Plus(w.finSeq, 1) == (s.finSeq + 1) % MODULUS;
    SendAckCommutes(s, s.finSeq + 1, q);
    assert SendFinAck(Wrapped, w, q) == SendAck(Wrapped, w, (s.finSeq + 1) % MODULUS, q);
    assert SendFinAck(Unbounded, s, q) == SendAck(Unbounded, s, s.finSeq + 1, q);
  }

  lemma FinCompleteCommutes(s: Socket, q: Request)
    requires Tame(s)
    ensures FinReady(Wrapped, Trunc(s)) == FinReady(Unbounded, s)
    ensures FinComplete(Wrapped, Trunc(s), q) == Trunc(FinComplete(Unbounded, s, q))
  {
    AckNumCommutes(s.recv);
    if s.finReceived {
      SendFinAckCommutes(s, q);
    }
  }

  lemma DataSegmentCommutes(s: Socket, len: nat)
    requires len <= |s.app|
    ensures DataSegment(Wrapped, Trunc(s), len) == TruncSegment(DataSegment(Unbounded, s, len))
  {
    AckNumCommutes(s.recv);
  }

  lemma TransmitDataCommutes(s: Socket, len: nat)
    requires len <= |s.app|
    ensures TransmitData(Wrapped, Trunc(s), len) == Trunc(TransmitData(Unbounded, s, len))
  {
    var s1 := s.(app := s.app[len..], nxt := s.nxt + len, sendWindow := LowerWindow(s.sendWindow, len));
    TruncatedSum(s.nxt, len);
    assert Trunc(s1) == Trunc(s).(app := s.app[len..], nxt := Wrapped.Plus(s.nxt % MODULUS, len),
                                  sendWindow := LowerWindow(s.sendWindow, len));
    DataSegmentCommutes(s, len);
    TransmitCommutes(s1, DataSegment(Unbounded, s, len), true);
  }

  lemma SendSegmentCommutes(s: Socket, len: nat, q: Request)
    requires Tame(s) && len <= |s.app|
    ensures SendSegment(Wrapped, Trunc(s), len, q)
         == (Trunc(SendSegment(Unbounded, s, len, q).0), SendSegment(Unbounded, s, len, q).1)
  {
    RequestBufferCommutes(s, q);
    var (s1, ok) := RequestBuffer(Unbounded, s, q);
    if ok {
      TransmitDataCommutes(s1, len);
    }
  }

  lemma {:induction false} SendLoopCommutes(s: Socket, o: Socket, t: Terms, u: Terms, q: Request)
    requires Good(s, o, t, u) && Sending(s)
    ensures SendLoop(Wrapped, Trunc(s), q) == Trunc(SendLoop(Unbounded, s, q))
    decreases |s.app|
  {
    if |s.app| > 0 && s.sendWindow > 0 {
      var len := Min3(s.sendWindow, |s.app|, s.mss);
      GoodIsTame(s, o, t, u);
      SendSegmentCommutes(s, len, q);
      var (s1, ok) := SendSegment(Unbounded, s, len, q);
      if ok {
        SendSegmentKeeps(s, o, t, u, len, q);
        SendLoopCommutes(s1, o, t, u, q);
      }
    }
  }

  lemma ProcessSendDataCommutes(s: Socket, o: Socket, t: Terms, u: Terms, q: Request, due: bool)
    requires Good(s, o, t, u) && Sending(s)
    ensures ProcessSendData(Wrapped, Trunc(s), q, due) == Trunc(ProcessSendData(Unbounded, s, q, due))
  {
    if |s.app| > 0 {
      if s.sendWindow == 0 {
        GoodIsTame(s, o, t, u);
        SendSegmentCommutes(s, 1, q);
      } else {
        SendLoopCommutes(s, o, t, u, q);
      }
    }
  }

  // ---------------------------------------------------------------- handlers with a segment

  lemma EstablishedTailCommutes(s: Socket, q: Request)
    requires Tame(s)
    ensures EstablishedTail(Wrapped, Trunc(s), q) == Trunc(EstablishedTail(Unbounded, s, q))
  {
    FinCompleteCommutes(s, q);
    var s1 := FinComplete(Unbounded, s, q);
    var s2 := if FinReady(Unbounded, s) then s1.(state := CLOSEWAIT) else s1;
    assert Trunc(s1).(state := CLOSEWAIT) == Trunc(s1.(state := CLOSEWAIT));
    AskCommutes(s2);
    assert EstablishedTail(Unbounded, s, q) == AskIfClosed(s2);
    assert EstablishedTail(Wrapped, Trunc(s), q) == AskIfClosed(Trunc(s2));
  }

  lemma AskCommutes(s: Socket)
    ensures AskIfClosed(Trunc(s)) == Trunc(AskIfClosed(s))
  {
    assert ReceiveWindow(Trunc(s)) == ReceiveWindow(s);
  }

  lemma EstablishedCommutes(s: Socket, g: Segment, q: Request)
    requires s.state == ESTABLISHED
    requires Tame(s) && EndPoint(s.una, s.nxt, g) && Live(s, g)
    requires !g.syn ==> Tame(TakeIn(Unbounded, s, g))
    ensures Established(Wrapped, Trunc(s), TruncSegment(g), q) == Trunc(Established(Unbounded, s, g, q))
  {
    if g.syn {
      SendPendingAckCommutes(s, q);
    } else {
      TakeInCommutes(s, g);
      UpdateSendWindowCommutes(TakeIn(Unbounded, s, g), g);
      EstablishedTailCommutes(UpdateSendWindow(Unbounded, TakeIn(Unbounded, s, g), g), q);
    }
  }

  lemma RequestKeepsWindow(s: Socket, q: Request)
    ensures var s' := RequestBuffer(Unbounded, s, q).0; s'.lwseq == s.lwseq && s'.lwack == s.lwack
  {
  }

  lemma SendAckKeepsWindow(s: Socket, ack: int, q: Request)
    ensures var s' := SendAck(Unbounded, s, ack, q); s'.lwseq == s.lwseq && s'.lwack == s.lwack
  {
    var (s1, ok) := RequestBuffer(Unbounded, s, q);
    RequestKeepsWindow(s, q);
    assert SendAck(Unbounded, s, ack, q) == if ok then Transmit(s1, Header(s1, ack), false) else s1;
  }

  lemma AnswerFinKeepsWindow(s: Socket, g: Segment, q: Request)
    ensures var s' := AnswerFin(Unbounded, s, g, q); s'.lwseq == s.lwseq && s'.lwack == s.lwack
  {
    var s1 := HandleAckOf(Unbounded, s, g);
    SendAckKeepsWindow(s1, s1.finSeq + 1, q);
    assert AnswerFin(Unbounded, s, g, q) == if g.fin then SendAck(Unbounded, s1, s1.finSeq + 1, q) else s1;
  }

  lemma AnswerFinCommutes(s: Socket, g: Segment, q: Request)
    requires Tame(s) && EndPoint(s.una, s.nxt, g) && !g.syn && Live(s, g)
    requires Tame(HandleAckOf(Unbounded, s, g))
    ensures AnswerFin(Wrapped, Trunc(s), TruncSegment(g), q) == Trunc(AnswerFin(Unbounded, s, g, q))
  {
    HandleAckCommutes(s, g);
    var s1 := HandleAckOf(Unbounded, s, g);
    if g.fin {
      SendFinAckCommutes(s1, q);
      assert AnswerFin(Unbounded, s, g, q) == SendFinAck(Unbounded, s1, q);
      assert AnswerFin(Wrapped, Trunc(s), TruncSegment(g), q) == SendFinAck(Wrapped, Trunc(s1), q);
    } else {
      assert AnswerFin(Unbounded, s, g, q) == s1;
      assert AnswerFin(Wrapped, Trunc(s), TruncSegment(g), q) == Trunc(s1);
    }
  }

  lemma CloseWaitCommutes(s: Socket, g: Segment, q: Request)
    requires s.state == CLOSEWAIT
    requires Tame(s) && EndPoint(s.una, s.nxt, g) && Live(s, g)
    requires !g.syn ==> Tame(HandleAckOf(Unbounded, s, g))
    ensures CloseWait(Wrapped, Trunc(s), TruncSegment(g), q) == Trunc(CloseWait(Unbounded, s, g, q))
  {
    if g.syn {
      SendFinAckCommutes(s, q);
    } else {
      AnswerFinCommutes(s, g, q);
      AnswerFinKeepsWindow(s, g, q);
      UpdateSendWindowCommutes(AnswerFin(Unbounded, s, g, q), g);
    }
  }

  lemma FinWait1Commutes(s: Socket, g: Segment, q: Request)
    requires s.state == FINWAIT1
    requires Tame(s) && EndPoint(s.una, s.nxt, g) && Live(s, g)
    requires !g.syn ==> Tame(TakeIn(Unbounded, s, g))
    ensures FinWait1(Wrapped, Trunc(s), TruncSegment(g), q) == Trunc(FinWait1(Unbounded, s, g, q))
  {
    if g.syn {
      SendPendingAckCommutes(s, q);
    } else {
      TakeInCommutes(s, g);
      var s1 := TakeIn(Unbounded, s, g);
      TruncatedEquality(g.ackno, s1.nxt);
      FinCompleteCommutes(s1, q);
      var s2 := FinComplete(Unbounded, s1, q);
      if FinReady(Unbounded, s1) {
        var st := if g.hasAck && g.ackno == s1.nxt then TIMEWAIT else CLOSING;
        assert FinWait1(Unbounded, s, g, q) == s2.(state := st);
        assert FinWait1(Wrapped, Trunc(s), TruncSegment(g), q) == Trunc(s2).(state := st);
      } else {
        assert FinWait1(Unbounded, s, g, q) == s1;
        assert FinWait1(Wrapped, Trunc(s), TruncSegment(g), q) == Trunc(s1);
      }
    }
  }

  lemma FinWait2Commutes(s: Socket, g: Segment, q: Request)
    requires s.state == FINWAIT2
    requires Tame(s) && Live(s, g)
    requires !g.syn ==> Tame(HandleData(HandleFin(Unbounded, s, g), g))
    ensures FinWait2(Wrapped, Trunc(s), TruncSegment(g), q) == Trunc(FinWait2(Unbounded, s, g, q))
  {
    if g.syn {
      SendPendingAckCommutes(s, q);
    } else {
      var s1 := HandleData(HandleFin(Unbounded, s, g), g);
      FinAndDataCommute(s, g);
      FinCompleteCommutes(s1, q);
      if FinReady(Unbounded, s1) {
        var s2 := FinComplete(Unbounded, s1, q);
        assert FinWait2(Unbounded, s, g, q) == s2.(state := TIMEWAIT);
        assert FinWait2(Wrapped, Trunc(s), TruncSegment(g), q) == Trunc(s2).(state := TIMEWAIT);
      } else {
        assert FinWait2(Unbounded, s, g, q) == s1;
        assert FinWait2(Wrapped, Trunc(s), TruncSegment(g), q) == Trunc(s1);
      }
    }
  }

  lemma LastStatesCommute(s: Socket, g: Segment, q: Request)
    requires s.state in {LASTACK, CLOSING, TIMEWAIT}
    requires Tame(s) && EndPoint(s.una, s.nxt, g) && Live(s, g)
    requires !g.syn ==> Tame(HandleAckOf(Unbounded, s, g))
    ensures Input(Wrapped, Trunc(s), TruncSegment(g), q) == Trunc(Input(Unbounded, s, g, q))
  {
    SendFinAckCommutes(s, q);
    if !g.syn && s.state == LASTACK {
      HandleAckCommutes(s, g);
    } else if !g.syn && s.state == CLOSING {
      AnswerFinCommutes(s, g, q);
    }
  }

  /** Every intermediate state of a handler is tame. */
  lemma StepsStayTame(s: Socket, o: Socket, t: Terms, u: Terms, g: Segment)
    requires Good(s, o, t, u) && g in o.wire && !g.syn && s.state != CLOSED
    ensures Tame(HandleAckOf(Unbounded, s, g)) && Tame(TakeIn(Unbounded, s, g))
    ensures Tame(HandleData(HandleFin(Unbounded, s, g), g))
  {
    HandleAckKeeps(s, o, t, u, g);
    GoodIsTame(HandleAckOf(Unbounded, s, g), o, t, u);
    TakeInKeeps(s, o, t, u, g);
    GoodIsTame(TakeIn(Unbounded, s, g), o, t, u);
    FinAndDataKeep(s, o, t, u, g);
    GoodIsTame(HandleData(HandleFin(Unbounded, s, g), g), o, t, u);
  }

  lemma OpenStatesCommute(s: Socket, g: Segment, q: Request)
    requires s.state in {ESTABLISHED, FINWAIT1, FINWAIT2, CLOSEWAIT}
    requires Tame(s) && EndPoint(s.una, s.nxt, g) && Live(s, g)
    requires !g.syn ==>
      && Tame(HandleAckOf(Unbounded, s, g)) && Tame(TakeIn(Unbounded, s, g))
      && Tame(HandleData(HandleFin(Unbounded, s, g), g))
    ensures Input(Wrapped, Trunc(s), TruncSegment(g), q) == Trunc(Input(Unbounded, s, g, q))
  {
    match s.state
    case ESTABLISHED => EstablishedCommutes(s, g, q);
    case FINWAIT1 => FinWait1Commutes(s, g, q);
    case FINWAIT2 => FinWait2Commutes(s, g, q);
    case CLOSEWAIT => CloseWaitCommutes(s, g, q);
    case _ =>
  }

  lemma InputCommutes(s: Socket, o: Socket, t: Terms, u: Terms, g: Segment, q: Request)
    requires Good(s, o, t, u) && g in o.wire && Live(s, g)
    ensures Input(Wrapped, Trunc(s), TruncSegment(g), q) == Trunc(Input(Unbounded, s, g, q))
  {
    assert EndPoint(s.una, s.nxt, g);
    GoodIsTame(s, o, t, u);
    if s.state != CLOSED && !g.syn {
      StepsStayTame(s, o, t, u, g);
    }
    if s.state in {ESTABLISHED, FINWAIT1, FINWAIT2, CLOSEWAIT} {
      OpenStatesCommute(s, g, q);
    } else if s.state != CLOSED {
      LastStatesCommute(s, g, q);
    }
  }

  // ---------------------------------------------------------------- handlers without a segment

  lemma ReadOutCommutes(s: Socket, c: nat)
    requires s.recv.head.Some? && c <= |s.recv.head.value.data| && c <= |s.app|
    ensures ReadOut(Wrapped, Trunc(s), c) == Trunc(ReadOut(Unbounded, s, c))
  {
    CopyDataCommutes(s, c);
  }

  lemma ReturnCommutes(s: Socket, done: bool)
    ensures ReturnToReader(Trunc(s), done) == Trunc(ReturnToReader(s, done))
  {
  }

  /** What one pass hands to the reader. */
  function ReadLength(s: Socket): nat {
    if |s.recv.Bytes()| > |s.app| then |s.app| else |s.recv.Bytes()|
  }

  lemma ReadingIs(ar: Arith, s: Socket, c: nat, q: Request)
    requires |s.recv.Bytes()| > 0 && c == ReadLength(s)
    ensures EstablishedReceiving(ar, s, q)
         == ReturnToReader(ProcessAck(ar, ReadOut(ar, s, c), q), |s.app[c..]| == 0 || s.recv.push)
  {
  }

  lemma ReadingCommutes(s: Socket, c: nat, q: Request)
    requires |s.recv.Bytes()| > 0 && c == ReadLength(s) && Tame(ReadOut(Unbounded, s, c))
    ensures EstablishedReceiving(Wrapped, Trunc(s), q) == Trunc(EstablishedReceiving(Unbounded, s, q))
  {
    var s1 := ReadOut(Unbounded, s, c);
    var done := |s.app[c..]| == 0 || s.recv.push;
    ReadOutCommutes(s, c);
    ProcessAckCommutes(s1, q);
    var s2 := ProcessAck(Unbounded, s1, q);
    ReturnCommutes(s2, done);
    ReadingIs(Unbounded, s, c, q);
    ReadingIs(Wrapped, Trunc(s), c, q);
    assert EstablishedReceiving(Unbounded, s, q) == ReturnToReader(s2, done);
  }

  lemma EstablishedReceivingCommutes(s: Socket, q: Request)
    requires Tame(s)
    requires |s.recv.Bytes()| > 0 ==> Tame(ReadOut(Unbounded, s, ReadLength(s)))
    ensures EstablishedReceiving(Wrapped, Trunc(s), q) == Trunc(EstablishedReceiving(Unbounded, s, q))
  {
    if |s.recv.Bytes()| > 0 {
      ReadingCommutes(s, ReadLength(s), q);
    } else {
      ProcessAckCommutes(s, q);
    }
  }

  lemma SendingCommutes(s: Socket, o: Socket, t: Terms, u: Terms, q: Request, due: bool)
    requires Good(s, o, t, u) && Sending(s)
    ensures FinishWrite(ProcessSendData(Wrapped, Trunc(s), q, due))
         == Trunc(FinishWrite(ProcessSendData(Unbounded, s, q, due)))
  {
    ProcessSendDataCommutes(s, o, t, u, q, due);
  }

  lemma EstablishedBusyCommutes(s: Socket, o: Socket, t: Terms, u: Terms, e: Quiet)
    requires Good(s, o, t, u) && s.state == ESTABLISHED
    ensures EstablishedBusy(Wrapped, Trunc(s), e) == Trunc(EstablishedBusy(Unbounded, s, e))
  {
    GoodIsTame(s, o, t, u);
    if s.receiving {
      if |s.recv.Bytes()| > 0 {
        ReadOutKeeps(s, o, t, u, ReadLength(s));
        GoodIsTame(ReadOut(Unbounded, s, ReadLength(s)), o, t, u);
      }
      EstablishedReceivingCommutes(s, e.ackRequest);
    } else if s.waiting {
      ProcessAckCommutes(s, e.ackRequest);
      ProcessAckKeeps(s, o, t, u, e.ackRequest);
      SendingCommutes(ProcessAck(Unbounded, s, e.ackRequest), o, t, u, e.dataRequest, e.due);
    }
  }

  lemma FlushOutCommutes(s: Socket, c: nat)
    requires s.recv.head.Some? && c <= |s.recv.head.value.data|
    ensures FlushOut(Wrapped, Trunc(s), c) == Trunc(FlushOut(Unbounded, s, c))
  {
    CopyDataCommutes(s, c);
  }

  lemma FlushingIs(ar: Arith, s: Socket, c: nat)
    requires s.recv.head.Some? && c == ReadLength(s)
    ensures CloseWaitReceiving(ar, s) == ReturnToReader(FlushOut(ar, s, c), true)
  {
  }

  lemma CloseWaitReceivingCommutes(s: Socket)
    ensures CloseWaitReceiving(Wrapped, Trunc(s)) == Trunc(CloseWaitReceiving(Unbounded, s))
  {
    if s.recv.head.Some? {
      var c := ReadLength(s);
      FlushOutCommutes(s, c);
      ReturnCommutes(FlushOut(Unbounded, s, c), true);
      FlushingIs(Unbounded, s, c);
      FlushingIs(Wrapped, Trunc(s), c);
    } else {
      assert CloseWaitReceiving(Unbounded, s) == s.(fault := true);
      assert CloseWaitReceiving(Wrapped, Trunc(s)) == Trunc(s).(fault := true);
    }
  }

  lemma CloseWaitBusyCommutes(s: Socket, o: Socket, t: Terms, u: Terms, e: Quiet)
    requires Good(s, o, t, u) && s.state == CLOSEWAIT
    ensures CloseWaitBusy(Wrapped, Trunc(s), e) == Trunc(CloseWaitBusy(Unbounded, s, e))
  {
    if s.receiving {
      CloseWaitReceivingCommutes(s);
    } else if s.waiting {
      SendingCommutes(s, o, t, u, e.dataRequest, e.due);
    }
  }

  lemma AckOnlyQuietCommutes(s: Socket, e: Quiet)
    requires Tame(s)
    ensures AckOnlyQuiet(Wrapped, Trunc(s), e) == Trunc(AckOnlyQuiet(Unbounded, s, e))
  {
    UpdateHistoryCommutes(s, true, e.sent, e.timedOut);
    ProcessAckCommutes(UpdateHistory(Unbounded, s, true, e.sent, e.timedOut), e.ackRequest);
  }

  lemma LastAckQuietCommutes(s: Socket, e: Quiet)
    requires Tame(s)
    ensures LastAckQuiet(Wrapped, Trunc(s), e) == Trunc(LastAckQuiet(Unbounded, s, e))
  {
    UpdateHistoryCommutes(s, true, e.sent, e.timedOut);
    var s1 := UpdateHistory(Unbounded, s, true, e.sent, e.timedOut);
    if s1.history.None? {
      assert LastAckQuiet(Unbounded, s, e) == Abort(s1);
      assert LastAckQuiet(Wrapped, Trunc(s), e) == Abort(Trunc(s1));
    } else {
      assert LastAckQuiet(Unbounded, s, e) == s1;
      assert LastAckQuiet(Wrapped, Trunc(s), e) == Trunc(s1);
    }
  }

  lemma ClosingQuietCommutes(s: Socket, e: Quiet)
    requires Tame(s)
    ensures ClosingQuiet(Wrapped, Trunc(s), e) == Trunc(ClosingQuiet(Unbounded, s, e))
  {
    UpdateHistoryCommutes(s, true, e.sent, e.timedOut);
    var s1 := UpdateHistory(Unbounded, s, true, e.sent, e.timedOut);
    if s1.history.None? {
      assert ClosingQuiet(Unbounded, s, e) == s1.(state := TIMEWAIT);
      assert ClosingQuiet(Wrapped, Trunc(s), e) == Trunc(s1).(state := TIMEWAIT);
    } else {
      assert ClosingQuiet(Unbounded, s, e) == s1;
      assert ClosingQuiet(Wrapped, Trunc(s), e) == Trunc(s1);
    }
  }

  lemma TimeWaitQuietCommutes(s: Socket, e: Quiet)
    requires Tame(s)
    ensures TimeWaitQuiet(Wrapped, Trunc(s), e) == Trunc(TimeWaitQuiet(Unbounded, s, e))
  {
    UpdateHistoryCommutes(s, true, e.sent, e.timedOut);
    var s1 := UpdateHistory(Unbounded, s, true, e.sent, e.timedOut);
    if e.expired {
      assert TimeWaitQuiet(Unbounded, s, e) == Abort(s1);
      assert TimeWaitQuiet(Wrapped, Trunc(s), e) == Abort(Trunc(s1));
    }
  }

  lemma LastStatesQuietCommute(s: Socket, e: Quiet)
    requires Tame(s) && s.state in {FINWAIT1, FINWAIT2, LASTACK, CLOSING, TIMEWAIT}
    ensures InputQuiet(Wrapped, Trunc(s), e) == Trunc(InputQuiet(Unbounded, s, e))
  {
    match s.state
    case FINWAIT1 => FinWait1QuietCommutes(s, e);
    case FINWAIT2 => AckOnlyQuietCommutes(s, e);
    case LASTACK => LastAckQuietCommutes(s, e);
    case CLOSING => ClosingQuietCommutes(s, e);
    case TIMEWAIT => TimeWaitQuietCommutes(s, e);
    case _ =>
  }

  lemma InputQuietCommutes(s: Socket, o: Socket, t: Terms, u: Terms, e: Quiet)
    requires Good(s, o, t, u)
    ensures InputQuiet(Wrapped, Trunc(s), e) == Trunc(InputQuiet(Unbounded, s, e))
  {
    GoodIsTame(s, o, t, u);
    match s.state
    case CLOSED =>
    case ESTABLISHED => EstablishedQuietCommutes(s, o, t, u, e);
    case CLOSEWAIT => CloseWaitQuietCommutes(s, o, t, u, e);
    case _ => LastStatesQuietCommute(s, e);
  }

  lemma FinWait1QuietCommutes(s: Socket, e: Quiet)
    requires Tame(s)
    ensures FinWait1Quiet(Wrapped, Trunc(s), e) == Trunc(FinWait1Quiet(Unbounded, s, e))
  {
    AckOnlyQuietCommutes(s, e);
    var s1 := AckOnlyQuiet(Unbounded, s, e);
    assert Trunc(s1).(state := FINWAIT2) == Trunc(s1.(state := FINWAIT2));
  }

  lemma EstablishedQuietCommutes(s: Socket, o: Socket, t: Terms, u: Terms, e: Quiet)
    requires Good(s, o, t, u) && s.state == ESTABLISHED
    ensures EstablishedQuiet(Wrapped, Trunc(s), e) == Trunc(EstablishedQuiet(Unbounded, s, e))
  {
    GoodIsTame(s, o, t, u);
    UpdateHistoryCommutes(s, true, e.sent, e.timedOut);
    UpdateHistoryKeeps(s, o, t, u, true, e.sent, e.timedOut);
    EstablishedBusyCommutes(UpdateHistory(Unbounded, s, true, e.sent, e.timedOut), o, t, u, e);
  }

  lemma CloseWaitQuietCommutes(s: Socket, o: Socket, t: Terms, u: Terms, e: Quiet)
    requires Good(s, o, t, u) && s.state == CLOSEWAIT
    ensures CloseWaitQuiet(Wrapped, Trunc(s), e) == Trunc(CloseWaitQuiet(Unbounded, s, e))
  {
    GoodIsTame(s, o, t, u);
    UpdateHistoryCommutes(s, true, e.sent, e.timedOut);
    UpdateHistoryKeeps(s, o, t, u, true, e.sent, e.timedOut);
    CloseWaitBusyCommutes(UpdateHistory(Unbounded, s, true, e.sent, e.timedOut), o, t, u, e);
  }

  // ---------------------------------------------------------------- application calls

  lemma PollTailCommutes(s: Socket, e: Quiet)
    requires Tame(s)
    ensures PollTail(Wrapped, Trunc(s), e) == Trunc(PollTail(Unbounded, s, e))
  {
    AckOnlyQuietCommutes(s, e);
  }

  lemma TransmitFinCommutes(s: Socket)
    ensures TransmitFin(Wrapped, Trunc(s)) == Trunc(TransmitFin(Unbounded, s))
  {
    var g := Header(s, s.recv.AckNum(Unbounded)).(fin := true);
    AckNumCommutes(s.recv);
    TruncatedSum(s.nxt, 1);
    assert Header(Trunc(s), Trunc(s).recv.AckNum(Wrapped)).(fin := true) == TruncSegment(g);
    TransmitCommutes(s.(nxt := s.nxt + 1), g, true);
  }

  lemma BeginCloseCommutes(s: Socket, q: Request)
    requires Tame(s)
    ensures BeginClose(Wrapped, Trunc(s), q) == Trunc(BeginClose(Unbounded, s, q))
  {
    RequestBufferCommutes(s, q);
    TransmitFinCommutes(RequestBuffer(Unbounded, s, q).0);
  }
}
