/** The invariant of `TcpInvariant` is kept by every state handler and application call. */
module TcpSteps {
  import opened Basics
  import opened SerialNumbers
  import opened TcpModel
  import opened TcpInvariant

  /** `sendSegment`: a full-window segment or a one-byte probe. */
  lemma SendSegmentKeeps(s: Socket, o: Socket, t: Terms, u: Terms, len: nat, q: Request)
    requires Good(s, o, t, u) && Sending(s)
    requires 0 < len <= |s.app| && (len <= s.sendWindow || (len == 1 && s.sendWindow == 0))
    ensures var s' := SendSegment(Unbounded, s, len, q).0;
            Good(s', o, t, u) && Sending(s') && s'.state == s.state
  {
    RequestBufferKeeps(s, o, t, u, q);
    var (s1, ok) := RequestBuffer(Unbounded, s, q);
    if ok {
      TransmitDataKeeps(s1, o, t, u, len);
    }
  }

  lemma {:induction false} SendLoopKeeps(s: Socket, o: Socket, t: Terms, u: Terms, q: Request)
    requires Good(s, o, t, u) && Sending(s)
    ensures var s' := SendLoop(Unbounded, s, q);
            Good(s', o, t, u) && Sending(s') && s'.state == s.state
    decreases |s.app|
  {
    if |s.app| > 0 && s.sendWindow > 0 {
      var len := Min3(s.sendWindow, |s.app|, s.mss);
      SendSegmentKeeps(s, o, t, u, len, q);
      var (s1, ok) := SendSegment(Unbounded, s, len, q);
      if ok {
        SendLoopKeeps(s1, o, t, u, q);
      }
    }
  }

  lemma ProcessSendDataKeeps(s: Socket, o: Socket, t: Terms, u: Terms, q: Request, due: bool)
    requires Good(s, o, t, u) && Sending(s)
    ensures var s' := ProcessSendData(Unbounded, s, q, due);
            Good(s', o, t, u) && Sending(s') && s'.state == s.state
  {
    if |s.app| > 0 {
      if s.sendWindow == 0 {
        SendSegmentKeeps(s, o, t, u, 1, q);
      } else {
        SendLoopKeeps(s, o, t, u, q);
      }
    }
  }

  /** A change of state within the sending or within the closing group. */
  lemma StateKeeps(s: Socket, o: Socket, t: Terms, u: Terms, st: State)
    requires Good(s, o, t, u) && s.state != CLOSED && st != CLOSED
    requires FinSent(s) == FinSent(s.(state := st))
    requires st in {CLOSEWAIT, LASTACK, CLOSING, TIMEWAIT} ==> s.finReceived
    requires st in {FINWAIT2, TIMEWAIT} ==> s.una == s.nxt
    ensures Good(s.(state := st), o, t, u)
  {
    var s' := s.(state := st);
    assert FlowOf(s', t.base) == FlowOf(s, t.base) && IntakeOf(s') == IntakeOf(s);
  }

  /** The receiving and waiting flags go down, and nothing is pending. */
  lemma QuietenKeeps(s: Socket, o: Socket, t: Terms, u: Terms)
    requires Good(s, o, t, u) && (Sending(s) ==> |s.app| == 0 && s.una == s.nxt)
    ensures Good(s.(receiving := false, waiting := false), o, t, u)
  {
    var s' := s.(receiving := false, waiting := false);
    assert FlowOf(s', t.base) == FlowOf(s, t.base) && IntakeOf(s') == IntakeOf(s);
  }

  lemma FinishWriteKeeps(s: Socket, o: Socket, t: Terms, u: Terms)
    requires Good(s, o, t, u) && Sending(s)
    ensures Good(FinishWrite(s), o, t, u)
  {
    if |s.app| == 0 && s.history.None? {
      QuietenKeeps(s, o, t, u);
      assert FinishWrite(s) == s.(receiving := false, waiting := false);
    } else {
      assert FinishWrite(s) == s;
    }
  }

  lemma SendFinAckKeeps(s: Socket, o: Socket, t: Terms, u: Terms, q: Request)
    requires Good(s, o, t, u) && s.finReceived && s.state != CLOSED
    ensures Good(SendFinAck(Unbounded, s, q), o, t, u)
    ensures var s' := SendFinAck(Unbounded, s, q);
            s' == s.(history := s'.history, wire := s'.wire)
  {
    SendAckKeeps(s, o, t, u, s.finSeq + 1, q);
  }

  lemma FinCompleteKeeps(s: Socket, o: Socket, t: Terms, u: Terms, q: Request)
    requires Good(s, o, t, u) && s.state != CLOSED
    ensures Good(FinComplete(Unbounded, s, q), o, t, u)
    ensures var s' := FinComplete(Unbounded, s, q);
            s' == s.(history := s'.history, wire := s'.wire)
  {
    if FinReady(Unbounded, s) {
      SendFinAckKeeps(s, o, t, u, q);
    }
  }

  // ---------------------------------------------------------------- handlers with a segment

  lemma FinAndDataKeep(s: Socket, o: Socket, t: Terms, u: Terms, g: Segment)
    requires Good(s, o, t, u) && g in o.wire && !g.syn && s.state != CLOSED
    ensures var s' := HandleData(HandleFin(Unbounded, s, g), g);
            Good(s', o, t, u) && s'.state == s.state && s'.una == s.una && s'.nxt == s.nxt
  {
    HandleFinKeeps(s, o, t, u, g);
    HandleDataKeeps(HandleFin(Unbounded, s, g), o, t, u, g);
  }

  lemma TakeInKeeps(s: Socket, o: Socket, t: Terms, u: Terms, g: Segment)
    requires Good(s, o, t, u) && g in o.wire && !g.syn && s.state != CLOSED
    ensures var s' := TakeIn(Unbounded, s, g);
            Good(s', o, t, u) && s'.state == s.state && s'.nxt == s.nxt
            && (g.ackno == s.nxt ==> s'.una == s'.nxt)
  {
    HandleAckKeeps(s, o, t, u, g);
    FinAndDataKeep(HandleAckOf(Unbounded, s, g), o, t, u, g);
  }

  /** FIN_complete and the state it leads to. */
  lemma FinStateKeeps(s: Socket, o: Socket, t: Terms, u: Terms, q: Request, st: State)
    requires Good(s, o, t, u) && s.state != CLOSED && FinReady(Unbounded, s)
    requires st in {CLOSEWAIT, CLOSING, TIMEWAIT} && FinSent(s) == FinSent(s.(state := st))
    requires st == TIMEWAIT ==> s.una == s.nxt
    ensures Good(FinComplete(Unbounded, s, q).(state := st), o, t, u)
  {
    FinCompleteKeeps(s, o, t, u, q);
    StateKeeps(FinComplete(Unbounded, s, q), o, t, u, st);
  }

  lemma EstablishedTailKeeps(s: Socket, o: Socket, t: Terms, u: Terms, q: Request)
    requires Good(s, o, t, u) && s.state == ESTABLISHED
    ensures Good(EstablishedTail(Unbounded, s, q), o, t, u)
  {
    var s1 := FinComplete(Unbounded, s, q);
    FinCompleteKeeps(s, o, t, u, q);
    if FinReady(Unbounded, s) {
      FinStateKeeps(s, o, t, u, q, CLOSEWAIT);
    }
    var s2 := if FinReady(Unbounded, s) then s1.(state := CLOSEWAIT) else s1;
    FrameKeeps(s2, s2.(ackTriggered := true), o, t, u);
  }

  lemma EstablishedKeeps(s: Socket, o: Socket, t: Terms, u: Terms, g: Segment, q: Request)
    requires Good(s, o, t, u) && g in o.wire && s.state == ESTABLISHED
    ensures Good(Established(Unbounded, s, g, q), o, t, u)
  {
    if g.syn {
      SendPendingAckKeeps(s, o, t, u, q);
    } else {
      TakeInKeeps(s, o, t, u, g);
      var s1 := TakeIn(Unbounded, s, g);
      UpdateSendWindowKeeps(s1, o, t, u, g);
      EstablishedTailKeeps(UpdateSendWindow(Unbounded, s1, g), o, t, u, q);
    }
  }

  /** CLOSEWAIT and CLOSING answer a repeated FIN. */
  lemma AnswerFinKeeps(s: Socket, o: Socket, t: Terms, u: Terms, g: Segment, q: Request)
    requires Good(s, o, t, u) && g in o.wire && !g.syn
    requires s.state in {CLOSEWAIT, CLOSING}
    ensures Good(AnswerFin(Unbounded, s, g, q), o, t, u)
  {
    HandleAckKeeps(s, o, t, u, g);
    SendFinAckKeeps(HandleAckOf(Unbounded, s, g), o, t, u, q);
  }

  lemma CloseWaitKeeps(s: Socket, o: Socket, t: Terms, u: Terms, g: Segment, q: Request)
    requires Good(s, o, t, u) && g in o.wire && s.state == CLOSEWAIT
    ensures Good(CloseWait(Unbounded, s, g, q), o, t, u)
  {
    if g.syn {
      SendFinAckKeeps(s, o, t, u, q);
    } else {
      AnswerFinKeeps(s, o, t, u, g, q);
      UpdateSendWindowKeeps(AnswerFin(Unbounded, s, g, q), o, t, u, g);
    }
  }

  lemma FinWait1Keeps(s: Socket, o: Socket, t: Terms, u: Terms, g: Segment, q: Request)
    requires Good(s, o, t, u) && g in o.wire && s.state == FINWAIT1
    ensures Good(FinWait1(Unbounded, s, g, q), o, t, u)
  {
    if g.syn {
      SendPendingAckKeeps(s, o, t, u, q);
    } else {
      TakeInKeeps(s, o, t, u, g);
      var s1 := TakeIn(Unbounded, s, g);
      if FinReady(Unbounded, s1) {
        FinStateKeeps(s1, o, t, u, q, if g.hasAck && g.ackno == s1.nxt then TIMEWAIT else CLOSING);
      }
    }
  }

  lemma FinWait2Keeps(s: Socket, o: Socket, t: Terms, u: Terms, g: Segment, q: Request)
    requires Good(s, o, t, u) && g in o.wire && s.state == FINWAIT2
    ensures Good(FinWait2(Unbounded, s, g, q), o, t, u)
  {
    if g.syn {
      SendPendingAckKeeps(s, o, t, u, q);
    } else {
      FinAndDataKeep(s, o, t, u, g);
      var s1 := HandleData(HandleFin(Unbounded, s, g), g);
      if FinReady(Unbounded, s1) {
        FinStateKeeps(s1, o, t, u, q, TIMEWAIT);
      }
    }
  }

  /** The last three states answer a FIN and read acknowledgements only. */
  lemma LastStatesKeep(s: Socket, o: Socket, t: Terms, u: Terms, g: Segment, q: Request)
    requires Good(s, o, t, u) && g in o.wire
    requires s.state in {LASTACK, CLOSING, TIMEWAIT}
    ensures Good(Input(Unbounded, s, g, q), o, t, u)
  {
    SendFinAckKeeps(s, o, t, u, q);
    if !g.syn && s.state == LASTACK {
      HandleAckKeeps(s, o, t, u, g);
    } else if !g.syn && s.state == CLOSING {
      AnswerFinKeeps(s, o, t, u, g, q);
    }
  }

  lemma InputKeeps(s: Socket, o: Socket, t: Terms, u: Terms, g: Segment, q: Request)
    requires Good(s, o, t, u) && g in o.wire
    ensures Good(Input(Unbounded, s, g, q), o, t, u)
  {
    match s.state
    case CLOSED => ClosedKeeps(s, o, t, u);
    case ESTABLISHED => EstablishedKeeps(s, o, t, u, g, q);
    case FINWAIT1 => FinWait1Keeps(s, o, t, u, g, q);
    case FINWAIT2 => FinWait2Keeps(s, o, t, u, g, q);
    case CLOSEWAIT => CloseWaitKeeps(s, o, t, u, g, q);
    case LASTACK => LastStatesKeep(s, o, t, u, g, q);
    case CLOSING => LastStatesKeep(s, o, t, u, g, q);
    case TIMEWAIT => LastStatesKeep(s, o, t, u, g, q);
  }

  // ---------------------------------------------------------------- handlers without a segment

  lemma ClosedKeeps(s: Socket, o: Socket, t: Terms, u: Terms)
    requires Good(s, o, t, u) && s.state == CLOSED
    ensures Good(s.(waiting := false), o, t, u)
  {
    QuietenKeeps(s, o, t, u);
    assert s.(waiting := false) == s.(receiving := false, waiting := false);
  }

  lemma ReadOutKeeps(s: Socket, o: Socket, t: Terms, u: Terms, c: nat)
    requires Good(s, o, t, u) && s.receiving && s.state == ESTABLISHED
    requires s.recv.head.Some? && c <= |s.recv.head.value.data| && c <= |s.app|
    ensures var s' := ReadOut(Unbounded, s, c);
            Good(s', o, t, u) && s'.receiving && s'.state == ESTABLISHED
  {
    CopyDataKeeps(s, o, t, u, c, s.app[c..], s.appRecvLen + c);
  }

  lemma EstablishedReceivingKeeps(s: Socket, o: Socket, t: Terms, u: Terms, q: Request)
    requires Good(s, o, t, u) && s.receiving && s.state == ESTABLISHED
    ensures Good(EstablishedReceiving(Unbounded, s, q), o, t, u)
  {
    var n := |s.recv.Bytes()|;
    if n > 0 {
      var c := if n > |s.app| then |s.app| else n;
      var s1 := ReadOut(Unbounded, s, c);
      ReadOutKeeps(s, o, t, u, c);
      ProcessAckKeeps(s1, o, t, u, q);
      QuietenKeeps(ProcessAck(Unbounded, s1, q), o, t, u);
    } else {
      ProcessAckKeeps(s, o, t, u, q);
    }
  }

  lemma EstablishedBusyKeeps(s: Socket, o: Socket, t: Terms, u: Terms, e: Quiet)
    requires Good(s, o, t, u) && s.state == ESTABLISHED
    ensures Good(EstablishedBusy(Unbounded, s, e), o, t, u)
  {
    if s.receiving {
      EstablishedReceivingKeeps(s, o, t, u, e.ackRequest);
    } else if s.waiting {
      ProcessAckKeeps(s, o, t, u, e.ackRequest);
      var s1 := ProcessAck(Unbounded, s, e.ackRequest);
      ProcessSendDataKeeps(s1, o, t, u, e.dataRequest, e.due);
      FinishWriteKeeps(ProcessSendData(Unbounded, s1, e.dataRequest, e.due), o, t, u);
    }
  }

  lemma CloseWaitReceivingKeeps(s: Socket, o: Socket, t: Terms, u: Terms)
    requires Good(s, o, t, u) && s.receiving && s.state == CLOSEWAIT
    ensures Good(CloseWaitReceiving(Unbounded, s), o, t, u)
  {
    var n := |s.recv.Bytes()|;
    var c := if |s.app| > n then n else |s.app|;
    if s.recv.head.None? {
      FrameKeeps(s, s.(fault := true), o, t, u);
    } else {
      var buf := s.recv.head.value.data[..c];
      CopyDataKeeps(s, o, t, u, c, buf, s.appRecvLen + c);
      QuietenKeeps(CopyData(Unbounded, s, c).(app := buf, appRecvLen := s.appRecvLen + c), o, t, u);
    }
  }

  lemma CloseWaitBusyKeeps(s: Socket, o: Socket, t: Terms, u: Terms, e: Quiet)
    requires Good(s, o, t, u) && s.state == CLOSEWAIT
    ensures Good(CloseWaitBusy(Unbounded, s, e), o, t, u)
  {
    if s.receiving {
      CloseWaitReceivingKeeps(s, o, t, u);
    } else if s.waiting {
      ProcessSendDataKeeps(s, o, t, u, e.dataRequest, e.due);
      FinishWriteKeeps(ProcessSendData(Unbounded, s, e.dataRequest, e.due), o, t, u);
    }
  }

  lemma AbortKeeps(s: Socket, o: Socket, t: Terms, u: Terms)
    requires Good(s, o, t, u) && s.state in {LASTACK, TIMEWAIT} && s.una == s.nxt
    ensures Good(Abort(s), o, t, u)
  {
    var s' := Abort(s);
    assert FlowOf(s', t.base) == FlowOf(s, t.base) && IntakeOf(s') == IntakeOf(s);
  }

  lemma AckOnlyQuietKeeps(s: Socket, o: Socket, t: Terms, u: Terms, e: Quiet)
    requires Good(s, o, t, u) && s.state != CLOSED
    ensures Good(AckOnlyQuiet(Unbounded, s, e), o, t, u)
    ensures AckOnlyQuiet(Unbounded, s, e).state == s.state
  {
    UpdateHistoryKeeps(s, o, t, u, true, e.sent, e.timedOut);
    ProcessAckKeeps(UpdateHistory(Unbounded, s, true, e.sent, e.timedOut), o, t, u, e.ackRequest);
  }

  lemma FinWait1QuietKeeps(s: Socket, o: Socket, t: Terms, u: Terms, e: Quiet)
    requires Good(s, o, t, u) && s.state == FINWAIT1
    ensures Good(FinWait1Quiet(Unbounded, s, e), o, t, u)
  {
    AckOnlyQuietKeeps(s, o, t, u, e);
    var s1 := AckOnlyQuiet(Unbounded, s, e);
    if s1.history.None? {
      StateKeeps(s1, o, t, u, FINWAIT2);
    }
  }

  lemma LastStatesQuietKeep(s: Socket, o: Socket, t: Terms, u: Terms, e: Quiet)
    requires Good(s, o, t, u) && s.state in {LASTACK, CLOSING, TIMEWAIT}
    ensures Good(InputQuiet(Unbounded, s, e), o, t, u)
  {
    UpdateHistoryKeeps(s, o, t, u, true, e.sent, e.timedOut);
    var s1 := UpdateHistory(Unbounded, s, true, e.sent, e.timedOut);
    if s.state == CLOSING && s1.history.None? {
      StateKeeps(s1, o, t, u, TIMEWAIT);
    } else if (s.state == LASTACK && s1.history.None?) || (s.state == TIMEWAIT && e.expired) {
      AbortKeeps(s1, o, t, u);
    }
  }

  lemma InputQuietKeeps(s: Socket, o: Socket, t: Terms, u: Terms, e: Quiet)
    requires Good(s, o, t, u)
    ensures Good(InputQuiet(Unbounded, s, e), o, t, u)
  {
    UpdateHistoryKeeps(s, o, t, u, true, e.sent, e.timedOut);
    var s1 := UpdateHistory(Unbounded, s, true, e.sent, e.timedOut);
    match s.state
    case CLOSED => ClosedKeeps(s, o, t, u);
    case ESTABLISHED => EstablishedBusyKeeps(s1, o, t, u, e);
    case FINWAIT1 => FinWait1QuietKeeps(s, o, t, u, e);
    case FINWAIT2 => AckOnlyQuietKeeps(s, o, t, u, e);
    case CLOSEWAIT => CloseWaitBusyKeeps(s1, o, t, u, e);
    case LASTACK => LastStatesQuietKeep(s, o, t, u, e);
    case CLOSING => LastStatesQuietKeep(s, o, t, u, e);
    case TIMEWAIT => LastStatesQuietKeep(s, o, t, u, e);
  }

  // ---------------------------------------------------------------- application calls

  /** Bytes handed to `write` extend the stream; nothing already sent changes its meaning. */
  lemma GrowWritten(f: Flow, i: Intake, wpeer: int, mine: seq<Segment>, data: seq<byte>)
    requires f.Valid() && SentWire(f, wpeer, mine) && Link(f, i)
    ensures var f' := f.(written := f.written + data);
            f'.Valid() && SentWire(f', wpeer, mine) && Link(f', i)
  {
    var f' := f.(written := f.written + data);
    forall g | g in mine ensures SentSegment(f', wpeer, g) {
      assert SentSegment(f, wpeer, g);
      if !g.syn && |g.payload| > 0 {
        var k := g.seqno - f.base;
        assert f'.written[k .. k + |g.payload|] == f.written[k .. k + |g.payload|];
      }
    }
    assert f'.written[..i.ackNum - f.base] == f.written[..i.ackNum - f.base];
  }

  lemma BeginWriteKeeps(s: Socket, o: Socket, t: Terms, u: Terms, data: seq<byte>)
    requires Good(s, o, t, u) && !s.waiting
    ensures Good(BeginWrite(s, data), o, t, u)
  {
    if !FinSent(s) {
      var s', f := BeginWrite(s, data), FlowOf(s, t.base);
      GrowWritten(f, IntakeOf(o), u.wmax, s.wire, data);
      assert FlowOf(s', t.base) == f.(written := f.written + data) && IntakeOf(s') == IntakeOf(s);
      assert (f.written + data)[f.End() - f.base..] == data;
    }
  }

  lemma BeginReceiveKeeps(s: Socket, o: Socket, t: Terms, u: Terms, buf: seq<byte>)
    requires Good(s, o, t, u) && !s.waiting
    ensures Good(BeginReceive(s, buf), o, t, u)
  {
    if !FinSent(s) {
      var s' := BeginReceive(s, buf);
      assert FlowOf(s', t.base) == FlowOf(s, t.base) && IntakeOf(s') == IntakeOf(s);
    }
  }

  lemma PollTailKeeps(s: Socket, o: Socket, t: Terms, u: Terms, e: Quiet)
    requires Good(s, o, t, u)
    ensures Good(PollTail(Unbounded, s, e), o, t, u)
  {
    if !FinSent(s) {
      AckOnlyQuietKeeps(s, o, t, u, e);
    }
  }

  /** The FIN goes out on top of an empty history. */
  lemma TransmitFinKeeps(s: Socket, o: Socket, t: Terms, u: Terms)
    requires Good(s, o, t, u) && s.history.None? && !s.waiting && !FinSent(s)
    ensures Good(TransmitFin(Unbounded, s), o, t, u)
  {
    var g, f := Header(s, s.recv.AckNum(Unbounded)).(fin := true), FlowOf(s, t.base);
    var f' := f.(nxt := f.nxt + 1, fin := true);
    WindowFits(s, IntakeOf(s), t.wmax);
    ExtendFlow(f, f', IntakeOf(o), u.wmax, s.wire);
    TransmitKeeps(s, TransmitFin(Unbounded, s), o, t, u, f', g);
  }

  lemma BeginCloseKeeps(s: Socket, o: Socket, t: Terms, u: Terms, q: Request)
    requires Good(s, o, t, u) && !s.waiting
    ensures Good(BeginClose(Unbounded, s, q), o, t, u)
  {
    if !FinSent(s) {
      RequestBufferKeeps(s, o, t, u, q);
      var (s1, ok) := RequestBuffer(Unbounded, s, q);
      if ok {
        TransmitFinKeeps(s1, o, t, u);
      }
    }
  }
}
