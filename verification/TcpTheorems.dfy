/** What a user of two connected 32-bit sockets can rely on, in every run in which segments
    live no longer than half a cycle of the sequence-number space. */
module TcpTheorems {
  import opened Basics
  import opened SerialNumbers
  import opened TcpModel
  import opened TcpInvariant
  import opened TcpSteps
  import opened TcpRefinement
  import opened TcpSystem

  /** The state of the 32-bit system after a run. */
  function End(sys: System, events: seq<Event>): System {
    Run(Wrapped, TruncSystem(sys), events)
  }

  /** The unbounded run behind a 32-bit run. */
  lemma Shadow(sys: System, t: Terms, u: Terms, events: seq<Event>) returns (x: System)
    requires Start(sys, t, u) && LiveRun(sys, events)
    ensures x == Run(Unbounded, sys, events)
    ensures Good(x.a, x.b, t, u)
    ensures End(sys, events) == TruncSystem(x)
    ensures IntakeOf(x.b).accepted == End(sys, events).b.delivered + End(sys, events).b.recv.Bytes()
  {
    x := Run(Unbounded, sys, events);
    StartIsGood(sys, t, u);
    RunKeeps(sys, t, u, events);
    WrappedRunRefines(sys, t, u, events);
  }

  /** What one step does over unbounded numbers, the 32-bit engine does at the end of every live
      run: the responses proved of the one hold of the other, truncated. */
  lemma StepOfRun(sys: System, t: Terms, u: Terms, events: seq<Event>, a: Action) returns (x: System)
    requires Start(sys, t, u) && LiveRun(sys, events)
    ensures x == Run(Unbounded, sys, events) && Good(x.a, x.b, t, u)
    ensures LiveStep(x.a, x.b.wire, a) ==>
              Step(Wrapped, End(sys, events).a, End(sys, events).b.wire, a) == Trunc(Step(Unbounded, x.a, x.b.wire, a))
  {
    x := Shadow(sys, t, u, events);
    if LiveStep(x.a, x.b.wire, a) {
      StepCommutes(x.a, x.b, t, u, a);
    }
  }

  /** Nothing is lost, repeated, reordered or invented: what B has copied out and still holds is
      a prefix of what A has written, and B's acknowledgement number says how long it is. */
  lemma StreamIsAPrefix(sys: System, t: Terms, u: Terms, events: seq<Event>)
    requires Start(sys, t, u) && LiveRun(sys, events)
    ensures var end := End(sys, events);
            var got := end.b.delivered + end.b.recv.Bytes();
            && |got| <= |end.a.written| && got == end.a.written[..|got|]
            && end.b.recv.AckNum(Wrapped) == (t.base + |got|) % MODULUS
  {
    var x := Shadow(sys, t, u, events);
    AckNumCommutes(x.b.recv);
  }

  /** Unless a `write` of A is in progress, B's TCP holds or has delivered every byte A has
      written: `write` returns, and `close` sends its FIN, only then. */
  lemma OutsideWriteAllIsAccepted(sys: System, t: Terms, u: Terms, events: seq<Event>)
    requires Start(sys, t, u) && LiveRun(sys, events)
    requires !Sending(End(sys, events).a)
    ensures var end := End(sys, events);
            end.b.delivered + end.b.recv.Bytes() == end.a.written
  {
    var x := Shadow(sys, t, u, events);
    assert Sending(x.a) == Sending(End(sys, events).a);
    var f, i := FlowOf(x.a, t.base), IntakeOf(x.b);
    assert i.Acked() >= f.End() && i.ackNum == f.End();
    assert f.written[..|f.written|] == f.written;
  }

  /** A closed connection: once A has seen its FIN acknowledged, B has taken in the whole stream
      and the end of it. */
  lemma CloseIsOrderly(sys: System, t: Terms, u: Terms, events: seq<Event>)
    requires Start(sys, t, u) && LiveRun(sys, events)
    requires End(sys, events).a.state in {FINWAIT2, TIMEWAIT, CLOSED}
    ensures var end := End(sys, events);
            && end.b.delivered + end.b.recv.Bytes() == end.a.written
            && (end.b.finReceived || end.b.state == CLOSED)
            && end.b.finSeq == end.b.recv.AckNum(Wrapped)
  {
    var x := Shadow(sys, t, u, events);
    OutsideWriteAllIsAccepted(sys, t, u, events);
    AckNumCommutes(x.b.recv);
    var f, i := FlowOf(x.a, t.base), IntakeOf(x.b);
    assert i.Acked() == f.nxt;
  }

  /** An acknowledgement of A's FIN is emitted only by a B that has everything before it.  (Over
      unbounded numbers, where an acknowledgement number determines a position.) */
  lemma NoAckBeyondFin(sys: System, t: Terms, u: Terms, events: seq<Event>, g: Segment)
    requires Start(sys, t, u)
    requires g in Run(Unbounded, sys, events).b.wire && !g.syn
    ensures var end := Run(Unbounded, sys, events);
            && g.ackno <= t.base + |end.a.written| + 1
            && (g.ackno == t.base + |end.a.written| + 1 ==>
                  FinSent(end.a) && IntakeOf(end.b).finDone
                  && end.b.delivered + end.b.recv.Bytes() == end.a.written)
  {
    var x := Run(Unbounded, sys, events);
    StartIsGood(sys, t, u);
    RunKeeps(sys, t, u, events);
    assert AckSegment(IntakeOf(x.b).Acked(), u.wmax, g);
    var f, i := FlowOf(x.a, t.base), IntakeOf(x.b);
    if g.ackno == t.base + |x.a.written| + 1 {
      assert i.ackNum == f.End() == t.base + |x.a.written|;
      assert f.written[..|f.written|] == f.written;
    }
  }

  /** The same as A sees it, in 32 bits: a segment of B within its lifetime whose acknowledgement
      number equals `seqnum_next` after A's FIN means that B has taken in the whole stream and
      the end of it. */
  lemma FinIsAcknowledgedLast(sys: System, t: Terms, u: Terms, events: seq<Event>, k: nat)
    requires Start(sys, t, u) && LiveRun(sys, events)
    requires k < |Run(Unbounded, sys, events).b.wire|
    requires Live(Run(Unbounded, sys, events).a, Run(Unbounded, sys, events).b.wire[k])
    ensures var end := End(sys, events);
            && k < |end.b.wire|
            && var g := end.b.wire[k];
               FinSent(end.a) && !g.syn && g.ackno == end.a.nxt ==>
                 && end.b.delivered + end.b.recv.Bytes() == end.a.written
                 && (end.b.finReceived || end.b.state == CLOSED)
  {
    var x := Shadow(sys, t, u, events);
    var g := x.b.wire[k];
    GoodIsTame(x.a, x.b, t, u);
    assert FinSent(End(sys, events).a) == FinSent(x.a);
    assert End(sys, events).b.wire[k] == TruncSegment(g);
    if FinSent(x.a) && !g.syn && g.ackno % MODULUS == x.a.nxt % MODULUS {
      TruncatedEquality(g.ackno, x.a.nxt);
      FinAckMeansAll(x.a, x.b, t, u, g);
    }
  }

  lemma FinAckMeansAll(s: Socket, o: Socket, t: Terms, u: Terms, g: Segment)
    requires Good(s, o, t, u) && FinSent(s) && g in o.wire && !g.syn && g.ackno == s.nxt
    ensures o.delivered + o.recv.Bytes() == s.written && IntakeOf(o).finDone
  {
    var f, i := FlowOf(s, t.base), IntakeOf(o);
    assert AckSegment(i.Acked(), u.wmax, g);
    assert i.ackNum == f.End() == t.base + |s.written|;
    assert f.written[..|f.written|] == f.written;
  }

  /** The unacknowledged range of A is empty or is exactly the one timed record: the FIN, or the
      bytes of the stream right before those still pending.  So removal by first sequence number
      drops nothing that is still needed. */
  lemma UnackedIsTheRecord(sys: System, t: Terms, u: Terms, events: seq<Event>)
    requires Start(sys, t, u) && LiveRun(sys, events)
    ensures RecordIsUnacked(End(sys, events).a, t)
  {
    var x := Shadow(sys, t, u, events);
    RecordOfGood(x.a, x.b, t, u);
    assert End(sys, events).a == Trunc(x.a);
  }

  /** What an endpoint has sent and not seen acknowledged. */
  predicate RecordIsUnacked(a: Socket, t: Terms) {
    a.una != a.nxt ==>
      && a.history.Some? && a.history.value.timed
      && var g := a.history.value.segment;
         && g.seqno == a.una && (g.seqno + g.Len()) % MODULUS == a.nxt
         && (g.fin ==> g.payload == [] && FinSent(a))
         && (!g.fin ==> var k := |a.written| - |a.app| - |g.payload|;
               && 0 <= k && a.written[k..] == g.payload + a.app
               && (t.base + k) % MODULUS == g.seqno)
  }

  lemma RecordOfGood(s: Socket, o: Socket, t: Terms, u: Terms)
    requires Good(s, o, t, u)
    ensures RecordIsUnacked(Trunc(s), t)
  {
    if s.una != s.nxt {
      var g, f := s.history.value.segment, FlowOf(s, t.base);
      assert SentSegment(f, u.wmax, g);
      assert g.seqno == f.una < f.nxt && g.End() == f.nxt;
      TruncatedSum(g.seqno, g.Len());
      if !g.fin {
        PendingFollowsRecord(s, f, u.wmax, g);
      }
    }
  }

  lemma PendingFollowsRecord(s: Socket, f: Flow, wpeer: int, g: Segment)
    requires SenderOk(s, f, wpeer) && SentSegment(f, wpeer, g) && !g.syn && !g.fin
    requires f.fin == FinSent(s) && f.written == s.written
    requires g.seqno == f.una < f.nxt && g.End() == f.nxt
    ensures var k := |s.written| - |s.app| - |g.payload|;
            k == g.seqno - f.base && 0 <= k && s.written[k..] == g.payload + s.app
  {
    var k := g.seqno - f.base;
    assert s.written[k..] == s.written[k .. k + |g.payload|] + s.written[k + |g.payload|..];
  }

  /** How far `a` is ahead of `b` on the circle of 32-bit numbers. */
  function Ahead(a: int, b: int): int {
    (a - b) % MODULUS
  }

  /** What B has acknowledged lies between A's two registers, and they are never more than one
      full window plus one apart. */
  lemma AcknowledgedIsBetween(sys: System, t: Terms, u: Terms, events: seq<Event>)
    requires Start(sys, t, u) && LiveRun(sys, events)
    ensures var end := End(sys, events);
            var acked := end.b.recv.AckNum(Wrapped)
                         + if end.b.finReceived || end.b.state == CLOSED then 1 else 0;
            Ahead(acked, end.a.una) <= Ahead(end.a.nxt, end.a.una) <= MAX_WINDOW + 1
  {
    var x := Shadow(sys, t, u, events);
    AckNumCommutes(x.b.recv);
    GoodIsTame(x.a, x.b, t, u);
    var i := IntakeOf(x.b);
    TruncatedOrder(i.ackNum, if i.finDone then 1 else 0, x.a.una, x.a.nxt);
    var end := End(sys, events);
    assert end.a.una == x.a.una % MODULUS && end.a.nxt == x.a.nxt % MODULUS;
    assert end.b.recv.AckNum(Wrapped) == i.ackNum % MODULUS;
    assert (end.b.finReceived || end.b.state == CLOSED) == i.finDone;
  }

  lemma TruncatedOrder(k: int, n: int, una: int, nxt: int)
    requires una <= k + n <= nxt <= una + MAX_WINDOW + 1
    ensures Ahead(k % MODULUS + n, una % MODULUS) <= Ahead(nxt % MODULUS, una % MODULUS) <= MAX_WINDOW + 1
  {
    TruncatedGap(nxt, 0, una);
    TruncatedGap(k, n, una);
  }

  lemma TruncatedGap(a: int, n: int, b: int)
    requires 0 <= a + n - b < MODULUS
    ensures (a % MODULUS + n - b % MODULUS) % MODULUS == a + n - b
  {
    assert a == MODULUS * (a / MODULUS) + a % MODULUS;
    assert b == MODULUS * (b / MODULUS) + b % MODULUS;
    ModuloIsUnique(a % MODULUS + n - b % MODULUS, b / MODULUS - a / MODULUS, a + n - b);
  }

  /** Flow control: B's buffer stays within its limit, the window it advertises is exactly what
      is left (cut to 16 bits) and never wraps, and A's send window never exceeds B's limit. */
  lemma WindowsAreRespected(sys: System, t: Terms, u: Terms, events: seq<Event>)
    requires Start(sys, t, u) && LiveRun(sys, events)
    ensures var end := End(sys, events);
            && |end.b.recv.Bytes()| <= u.wmax
            && 0 <= end.a.sendWindow <= u.wmax && end.a.sendWindow <= MAX_WINDOW
            && (end.b.state != CLOSED ==>
                  var free := u.wmax - |end.b.recv.Bytes()|;
                  ReceiveWindow(end.b) == if free > MAX_WINDOW then MAX_WINDOW else free)
  {
    var x := Shadow(sys, t, u, events);
    WindowsOfGood(x.a, x.b, t, u);
  }

  lemma WindowsOfGood(s: Socket, o: Socket, t: Terms, u: Terms)
    requires Good(s, o, t, u)
    ensures var s', o' := Trunc(s), Trunc(o);
            && |o'.recv.Bytes()| <= u.wmax
            && 0 <= s'.sendWindow <= u.wmax && s'.sendWindow <= MAX_WINDOW
            && (o'.state != CLOSED ==>
                  var free := u.wmax - |o'.recv.Bytes()|;
                  ReceiveWindow(o') == if free > MAX_WINDOW then MAX_WINDOW else free)
  {
    if o.state != CLOSED {
      WindowFits(o, IntakeOf(o), u.wmax);
    }
    assert ReceiveWindow(Trunc(o)) == ReceiveWindow(o);
  }

  // ---------------------------------------------------------------- receive in CLOSEWAIT

  /** A step follows the null `head` exactly when a `receive` call waits in CLOSEWAIT on an empty
      receive buffer. */
  lemma FaultCondition(ar: Arith, s: Socket, peer: seq<Segment>, a: Action)
    requires !s.fault
    ensures Step(ar, s, peer, a).fault <==>
            a.Wait? && s.waiting && s.receiving && s.state == CLOSEWAIT && s.recv.head.None?
  {
    match a
    case Write(data) =>
    case Receive(buf) =>
    case Close(q) => QuietSteps(ar, s, q, false, false, false);
    case Poll(e) =>
      QuietSteps(ar, s, e.ackRequest, true, e.sent, e.timedOut);
      ProcessAckKeepsFault(ar, UpdateHistory(ar, s, true, e.sent, e.timedOut), e.ackRequest);
    case Wait(e) => QuietFault(ar, s, e);
    case Deliver(i, q) => if i < |peer| { InputFault(ar, s, peer[i], q); }
  }

  lemma QuietSteps(ar: Arith, s: Socket, q: Request, retransmit: bool, sent: bool, timedOut: bool)
    ensures var s1 := UpdateHistory(ar, s, retransmit, sent, timedOut);
            s1 == s.(history := s1.history, wire := s1.wire)
    ensures var s2 := RequestBuffer(ar, s, q).0; s2 == s.(history := s2.history)
  {
  }

  lemma SendAckKeepsFault(ar: Arith, s: Socket, ack: int, q: Request)
    ensures SendAck(ar, s, ack, q).fault == s.fault
  {
    QuietSteps(ar, s, q, false, false, false);
  }

  lemma ProcessAckKeepsFault(ar: Arith, s: Socket, q: Request)
    ensures ProcessAck(ar, s, q).fault == s.fault
  {
    SendAckKeepsFault(ar, s.(ackTriggered := false), s.recv.AckNum(ar), q);
  }

  lemma {:induction false} SendLoopKeepsFault(ar: Arith, s: Socket, q: Request)
    ensures SendLoop(ar, s, q).fault == s.fault
    decreases |s.app|
  {
    if |s.app| > 0 && s.sendWindow > 0 {
      var (s1, ok) := SendSegment(ar, s, Min3(s.sendWindow, |s.app|, s.mss), q);
      SendSegmentKeepsFault(ar, s, Min3(s.sendWindow, |s.app|, s.mss), q);
      if ok {
        SendLoopKeepsFault(ar, s1, q);
      }
    }
  }

  lemma ProcessSendDataKeepsFault(ar: Arith, s: Socket, q: Request, due: bool)
    ensures ProcessSendData(ar, s, q, due).fault == s.fault
  {
    SendSegmentKeepsFault(ar, s, 1, q);
    SendLoopKeepsFault(ar, s, q);
  }

  lemma SendSegmentKeepsFault(ar: Arith, s: Socket, len: nat, q: Request)
    ensures len <= |s.app| ==> SendSegment(ar, s, len, q).0.fault == s.fault
  {
    QuietSteps(ar, s, q, false, false, false);
  }

  lemma FinCompleteKeepsFault(ar: Arith, s: Socket, q: Request)
    ensures FinComplete(ar, s, q).fault == s.fault
  {
    SendAckKeepsFault(ar, s, ar.Plus(s.finSeq, 1), q);
  }

  lemma EstablishedReceivingKeepsFault(ar: Arith, s: Socket, q: Request)
    ensures EstablishedReceiving(ar, s, q).fault == s.fault
  {
    var n := |s.recv.Bytes()|;
    if n > 0 {
      ProcessAckKeepsFault(ar, ReadOut(ar, s, if n > |s.app| then |s.app| else n), q);
    } else {
      ProcessAckKeepsFault(ar, s, q);
    }
  }

  lemma EstablishedBusyKeepsFault(ar: Arith, s: Socket, e: Quiet)
    ensures EstablishedBusy(ar, s, e).fault == s.fault
  {
    if s.receiving {
      EstablishedReceivingKeepsFault(ar, s, e.ackRequest);
    } else {
      ProcessAckKeepsFault(ar, s, e.ackRequest);
      ProcessSendDataKeepsFault(ar, ProcessAck(ar, s, e.ackRequest), e.dataRequest, e.due);
    }
  }

  lemma CloseWaitQuietFault(ar: Arith, s: Socket, e: Quiet)
    requires !s.fault
    ensures CloseWaitQuiet(ar, s, e).fault <==> s.receiving && s.recv.head.None?
  {
    QuietSteps(ar, s, e.ackRequest, true, e.sent, e.timedOut);
    var s1 := UpdateHistory(ar, s, true, e.sent, e.timedOut);
    ProcessSendDataKeepsFault(ar, s1, e.dataRequest, e.due);
    assert CloseWaitQuiet(ar, s, e) == CloseWaitBusy(ar, s1, e);
  }

  lemma EstablishedQuietKeepsFault(ar: Arith, s: Socket, e: Quiet)
    ensures EstablishedQuiet(ar, s, e).fault == s.fault
  {
    QuietSteps(ar, s, e.ackRequest, true, e.sent, e.timedOut);
    var s1 := UpdateHistory(ar, s, true, e.sent, e.timedOut);
    EstablishedBusyKeepsFault(ar, s1, e);
    assert EstablishedQuiet(ar, s, e) == EstablishedBusy(ar, s1, e);
  }

  lemma AckOnlyKeepsFault(ar: Arith, s: Socket, e: Quiet)
    ensures AckOnlyQuiet(ar, s, e).fault == s.fault
  {
    QuietSteps(ar, s, e.ackRequest, true, e.sent, e.timedOut);
    var s1 := UpdateHistory(ar, s, true, e.sent, e.timedOut);
    ProcessAckKeepsFault(ar, s1, e.ackRequest);
    assert AckOnlyQuiet(ar, s, e) == ProcessAck(ar, s1, e.ackRequest);
  }

  lemma OtherQuietKeepsFault(ar: Arith, s: Socket, e: Quiet)
    requires s.state != ESTABLISHED && s.state != CLOSEWAIT
    ensures InputQuiet(ar, s, e).fault == s.fault
  {
    match s.state
    case FINWAIT1 => AckOnlyKeepsFault(ar, s, e);
    case FINWAIT2 => AckOnlyKeepsFault(ar, s, e);
    case _ => LastQuietKeepFault(ar, s, e);
  }

  lemma LastQuietKeepFault(ar: Arith, s: Socket, e: Quiet)
    ensures LastAckQuiet(ar, s, e).fault == s.fault
    ensures ClosingQuiet(ar, s, e).fault == s.fault
    ensures TimeWaitQuiet(ar, s, e).fault == s.fault
  {
    QuietSteps(ar, s, e.ackRequest, true, e.sent, e.timedOut);
    assert UpdateHistory(ar, s, true, e.sent, e.timedOut).fault == s.fault;
  }

  lemma QuietFault(ar: Arith, s: Socket, e: Quiet)
    requires !s.fault
    ensures InputQuiet(ar, s, e).fault <==> s.receiving && s.state == CLOSEWAIT && s.recv.head.None?
  {
    match s.state
    case ESTABLISHED => EstablishedQuietKeepsFault(ar, s, e);
    case CLOSEWAIT => CloseWaitQuietFault(ar, s, e);
    case _ => OtherQuietKeepsFault(ar, s, e);
  }

  lemma EstablishedKeepsFault(ar: Arith, s: Socket, g: Segment, q: Request)
    ensures Established(ar, s, g, q).fault == s.fault
  {
    SendAckKeepsFault(ar, s.(ackTriggered := false), s.recv.AckNum(ar), q);
    var s1 := UpdateSendWindow(ar, TakeIn(ar, s, g), g);
    assert s1.fault == s.fault;
    FinCompleteKeepsFault(ar, s1, q);
  }

  lemma AnswerFinKeepsFault(ar: Arith, s: Socket, g: Segment, q: Request)
    ensures AnswerFin(ar, s, g, q).fault == s.fault
  {
    var s1 := HandleAckOf(ar, s, g);
    SendAckKeepsFault(ar, s1, ar.Plus(s1.finSeq, 1), q);
  }

  lemma FinWaitKeepsFault(ar: Arith, s: Socket, g: Segment, q: Request)
    ensures FinWait1(ar, s, g, q).fault == s.fault
    ensures FinWait2(ar, s, g, q).fault == s.fault
  {
    SendAckKeepsFault(ar, s.(ackTriggered := false), s.recv.AckNum(ar), q);
    FinCompleteKeepsFault(ar, TakeIn(ar, s, g), q);
    FinCompleteKeepsFault(ar, HandleData(HandleFin(ar, s, g), g), q);
  }

  lemma LastKeepFault(ar: Arith, s: Socket, g: Segment, q: Request)
    ensures CloseWait(ar, s, g, q).fault == s.fault
    ensures LastAck(ar, s, g, q).fault == s.fault
    ensures Closing(ar, s, g, q).fault == s.fault
    ensures TimeWait(ar, s, g, q).fault == s.fault
  {
    SendAckKeepsFault(ar, s, ar.Plus(s.finSeq, 1), q);
    AnswerFinKeepsFault(ar, s, g, q);
  }

  lemma InputFault(ar: Arith, s: Socket, g: Segment, q: Request)
    requires !s.fault
    ensures !Input(ar, s, g, q).fault
  {
    match s.state
    case CLOSED =>
    case ESTABLISHED => EstablishedKeepsFault(ar, s, g, q);
    case FINWAIT1 => FinWaitKeepsFault(ar, s, g, q);
    case FINWAIT2 => FinWaitKeepsFault(ar, s, g, q);
    case _ => LastKeepFault(ar, s, g, q);
  }

  /** It does happen, with every segment within its lifetime: B waits in `receive`, A closes, the
      FIN arrives, B looks again. */
  lemma FaultIsReachable(sys: System, t: Terms, u: Terms, buf: seq<byte>, events: seq<Event>, q: Request, e: Quiet)
    requires Start(sys, t, u) && Near(t.base, sys.b.lwseq) && Near(u.base, sys.b.lwack)
    requires q == Request(true, true) && e == Quiet(true, false, false, false, q, q)
    requires events == [Event(B, Receive(buf)), Event(A, Close(q)), Event(B, Deliver(|sys.a.wire|, q)), Event(B, Wait(e))]
    ensures LiveRun(sys, events) && End(sys, events).b.fault
  {
    var s1 := Next(Unbounded, sys, events[0]);
    var s2 := Next(Unbounded, s1, events[1]);
    var g := s2.a.wire[|sys.a.wire|];
    assert g.fin && !g.syn && g.payload == [] && g.seqno == t.base && g.ackno == u.base;
    assert Live(s2.b, g);
    var s3 := Next(Unbounded, s2, events[2]);
    FinMovesToCloseWait(s2.b, g, q);
    QuietFault(Unbounded, s3.b, e);
    RunOfFour(sys, events[0], events[1], events[2], events[3]);
    LiveOfFour(sys, events[0], events[1], events[2], events[3]);
    var x := Shadow(sys, t, u, events);
  }

  lemma LiveOfFour(sys: System, e0: Event, e1: Event, e2: Event, e3: Event)
    requires !e0.action.Deliver? && !e1.action.Deliver? && !e3.action.Deliver? && e2.side == B
    requires var s2 := Next(Unbounded, Next(Unbounded, sys, e0), e1);
             LiveStep(s2.b, s2.a.wire, e2.action)
    ensures LiveRun(sys, [e0, e1, e2, e3])
  {
    var s1 := Next(Unbounded, sys, e0);
    var s2 := Next(Unbounded, s1, e1);
    var s3 := Next(Unbounded, s2, e2);
    assert [e0, e1, e2, e3][1..] == [e1, e2, e3];
    assert [e1, e2, e3][1..] == [e2, e3];
    assert [e2, e3][1..] == [e3];
    assert [e3][1..] == [];
    assert LiveRun(Next(Unbounded, s3, e3), []);
    assert LiveRun(s3, [e3]);
    assert LiveRun(s2, [e2, e3]);
    assert LiveRun(s1, [e1, e2, e3]);
  }

  lemma RunOfFour(sys: System, e0: Event, e1: Event, e2: Event, e3: Event)
    ensures Run(Unbounded, sys, [e0, e1, e2, e3])
         == Next(Unbounded, Next(Unbounded, Next(Unbounded, Next(Unbounded, sys, e0), e1), e2), e3)
  {
    var s1 := Next(Unbounded, sys, e0);
    var s2 := Next(Unbounded, s1, e1);
    var s3 := Next(Unbounded, s2, e2);
    assert [e0, e1, e2, e3][1..] == [e1, e2, e3];
    assert [e1, e2, e3][1..] == [e2, e3];
    assert [e2, e3][1..] == [e3];
    assert Run(Unbounded, s3, [e3]) == Next(Unbounded, s3, e3);
    assert Run(Unbounded, s2, [e2, e3]) == Run(Unbounded, s3, [e3]);
    assert Run(Unbounded, s1, [e1, e2, e3]) == Run(Unbounded, s2, [e2, e3]);
  }

  /** An in-order FIN ends the ESTABLISHED state at once. */
  lemma FinMovesToCloseWait(s: Socket, g: Segment, q: Request)
    requires s.state == ESTABLISHED && !s.finReceived && !s.fault && s.recv.head.None?
    requires g.fin && !g.syn && g.payload == [] && g.seqno == s.recv.first
    ensures var s' := Input(Unbounded, s, g, q);
            s'.state == CLOSEWAIT && s'.recv == s.recv && s'.receiving == s.receiving
            && s'.waiting == s.waiting && !s'.fault
  {
    var s1 := UpdateSendWindow(Unbounded, TakeIn(Unbounded, s, g), g);
    QuietSteps(Unbounded, s1, q, false, false, false);
    assert FinReady(Unbounded, s1);
  }
}
