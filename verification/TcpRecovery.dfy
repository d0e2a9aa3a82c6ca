/** A lost segment, or its lost acknowledgement, is made up for by one timeout: what the parts of
    the engine do about it, put together. */
module TcpRecovery {
  import opened Basics
  import opened SerialNumbers
  import opened TcpModel
  import opened TcpInvariant
  import opened TcpSteps
  import opened TcpSystem
  import opened TcpResponses
  import opened TcpStates

  /** The reader of a data segment: not closed for it, and with room, unless it has it already. */
  predicate CanTake(o: Socket, next: int) {
    && !o.fault && o.waiting && Open(o)
    && (o.recv.head.None? || IntakeOf(o).ackNum == next)
  }

  /** The writer resends the segment. */
  lemma SegmentComesAgain(s: Socket, o: Socket, t: Terms, u: Terms, e: Quiet) returns (g: Segment)
    requires Good(s, o, t, u) && Sending(s) && !s.fault && s.una < s.nxt && e.timedOut
    ensures var s1 := Step(Unbounded, s, o.wire, Wait(e));
            && Good(s1, o, t, u) && s1.wire == s.wire + [g] && s1.nxt == s.nxt && s1.una == s.una && !s1.fault
            && s1.written == s.written
            && !g.syn && !g.fin && g.payload != [] && g.seqno == s.una && g.End() == s.nxt && !FinSent(s1)
  {
    LostIsSentAgain(s, o, t, u, e);
    StepKeeps(s, o, t, u, Wait(e));
    g := s.history.value.segment;
    WaitingKept(s, e);
  }

  lemma WaitingKept(s: Socket, e: Quiet)
    requires Unacked(Unbounded, s) && s.state in {ESTABLISHED, CLOSEWAIT} && !s.receiving
    ensures var s' := InputQuiet(Unbounded, s, e);
            s'.una == s.una && s'.nxt == s.nxt && s'.fault == s.fault && s'.state == s.state && s'.written == s.written
  {
    RecordStays(Unbounded, s, e);
    var s1 := UpdateHistory(Unbounded, s, true, e.sent, e.timedOut);
    NoBuffer(Unbounded, s1, e.ackRequest);
    NoSegment(Unbounded, s1, e.dataRequest, e.due);
    NoSegment(Unbounded, s1.(ackTriggered := false), e.dataRequest, e.due);
  }

  /** The reader takes it in, or has it already, and owes an acknowledgement of all of it. */
  lemma SegmentIsTaken(o: Socket, s: Socket, u: Terms, t: Terms, g: Segment, q: Request)
    requires Good(o, s, u, t) && !FinSent(s) && g in s.wire && CanTake(o, s.nxt)
    requires !g.syn && !g.fin && g.payload != [] && g.seqno == s.una < s.nxt && g.End() == s.nxt
    ensures var o1 := Input(Unbounded, o, g, q);
            && o1.ackTriggered && o1.waiting && !o1.fault && o1.state == o.state
            && o1.wire == o.wire && o1.history == o.history && o1.nxt == o.nxt && o.una <= o1.una
            && IntakeOf(o1).ackNum == s.nxt
  {
    DataIsTaken(o, g, q);
    SegmentMoves(o, s, u, t, g, q);
    AckIsTaken(o, s, u, t, g, q);
    assert o.wire + [] == o.wire;
  }

  /** The reader `o` answers in its next pass, the answer reaches the writer `s`, and all that `s`
      has sent is accepted there and acknowledged here. */
  predicate Repaired(s: Socket, o: Socket, t: Terms, e: Quiet, q: Request) {
    var o' := Step(Unbounded, o, s.wire, Wait(e));
    var s' := Step(Unbounded, s, o'.wire, Deliver(|o.wire|, q));
    && s'.una == s'.nxt == s.nxt && t.base <= s.nxt <= t.base + |s.written|
    && o'.delivered + o'.recv.Bytes() == s.written[..s.nxt - t.base]
  }

  lemma AnswerComesBack(s: Socket, o: Socket, t: Terms, u: Terms, e: Quiet, q: Request)
    requires Good(o, s, u, t) && !FinSent(s) && !s.fault && s.una < s.nxt
    requires o.ackTriggered && o.waiting && !o.fault && Open(o) && IntakeOf(o).ackNum == s.nxt
    requires Clear(o, e.sent) && e.ackRequest.mem
    ensures Repaired(s, o, t, e, q)
  {
    var h := AnswerIsSent(o, s, u, t, e);
    var o2 := Step(Unbounded, o, s.wire, Wait(e));
    AckIsTaken(s, o2, t, u, h, q);
    AllIsAccepted(s, o2, t, u, h);
  }

  lemma AnswerIsSent(o: Socket, s: Socket, u: Terms, t: Terms, e: Quiet) returns (h: Segment)
    requires Good(o, s, u, t)
    requires o.ackTriggered && o.waiting && !o.fault && Open(o) && Clear(o, e.sent) && e.ackRequest.mem
    ensures var o' := Step(Unbounded, o, s.wire, Wait(e));
            && Good(s, o', t, u) && |o.wire| < |o'.wire| && h == o'.wire[|o.wire|]
            && !h.syn && h.ackno == IntakeOf(o).ackNum
  {
    PendingAckIsSent(o, s, u, t, e);
    StepKeeps(o, s, u, t, Wait(e));
    var o' := Step(Unbounded, o, s.wire, Wait(e));
    GoodIsSymmetric(o', s, u, t);
    h := o'.wire[|o.wire|];
  }

  lemma AllIsAccepted(s: Socket, o: Socket, t: Terms, u: Terms, h: Segment)
    requires Good(s, o, t, u) && !FinSent(s) && h in o.wire && !h.syn && h.ackno == s.nxt
    ensures t.base <= s.nxt <= t.base + |s.written|
    ensures o.delivered + o.recv.Bytes() == s.written[..s.nxt - t.base]
  {
    assert AckSegment(IntakeOf(o).Acked(), u.wmax, h);
  }

  /** A timeout of the writer, the segment it sends again delivered, a pass of the reader, and its
      answer delivered: with nothing of the reader's own in the way, and memory at hand, these four
      steps acknowledge all that was sent. */
  lemma LossIsRepaired(s: Socket, o: Socket, t: Terms, u: Terms, e: Quiet, q: Request, e': Quiet, q': Request)
    requires Good(s, o, t, u) && Sending(s) && !s.fault && s.una < s.nxt && e.timedOut
    requires CanTake(o, s.nxt) && Clear(o, e'.sent) && e'.ackRequest.mem
    ensures var s1 := Step(Unbounded, s, o.wire, Wait(e));
            var o1 := Step(Unbounded, o, s1.wire, Deliver(|s.wire|, q));
            s1.nxt == s.nxt && s1.written == s.written && Repaired(s1, o1, t, e', q')
  {
    var g := SegmentComesAgain(s, o, t, u, e);
    var s1 := Step(Unbounded, s, o.wire, Wait(e));
    assert s1.wire[|s.wire|] == g;
    GoodIsSymmetric(s1, o, t, u);
    ReaderAnswers(o, s1, u, t, g, |s.wire|, q, e', q');
  }

  lemma ReaderAnswers(o: Socket, s: Socket, u: Terms, t: Terms, g: Segment, i: nat, q: Request, e: Quiet, q': Request)
    requires Good(o, s, u, t) && !FinSent(s) && !s.fault && CanTake(o, s.nxt)
    requires i < |s.wire| && s.wire[i] == g
    requires !g.syn && !g.fin && g.payload != [] && g.seqno == s.una < s.nxt && g.End() == s.nxt
    requires Clear(o, e.sent) && e.ackRequest.mem
    ensures Repaired(s, Step(Unbounded, o, s.wire, Deliver(i, q)), t, e, q')
  {
    SegmentIsTaken(o, s, u, t, g, q);
    StepKeeps(o, s, u, t, Deliver(i, q));
    var o1 := Step(Unbounded, o, s.wire, Deliver(i, q));
    assert o1 == Input(Unbounded, o, g, q);
    TakenIsClear(o, o1, s, u, t, e.sent);
    AnswerComesBack(s, o1, t, u, e, q');
  }

  lemma TakenIsClear(o: Socket, o1: Socket, s: Socket, u: Terms, t: Terms, sent: bool)
    requires Clear(o, sent) && o1.history == o.history && o1.nxt == o.nxt && o.una <= o1.una
    requires Good(o1, s, u, t)
    ensures Clear(o1, sent)
  {
  }
}
