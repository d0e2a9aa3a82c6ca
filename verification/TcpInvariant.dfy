/** What every step of one endpoint keeps, over unbounded sequence numbers.
    `s` is the endpoint that takes the step and `o` its peer. */
module TcpInvariant {
  import opened Basics
  import opened SerialNumbers
  import opened TcpModel

  /** What an endpoint fixed during the handshake: the number of the first byte it sends and
      its receive-window limit in bytes. */
  datatype Terms = Terms(base: int, wmax: int)

  predicate FinSent(s: Socket) {
    s.state != ESTABLISHED && s.state != CLOSEWAIT
  }

  /** A `write` call is in progress. */
  predicate Sending(s: Socket) {
    s.waiting && !s.receiving && !FinSent(s)
  }

  /** The sending half of a socket. */
  datatype Flow = Flow(base: int, una: int, nxt: int, fin: bool, written: seq<byte>) {

    /** The number after the last data byte put into a segment. */
    function End(): int {
      if fin then nxt - 1 else nxt
    }

    predicate Valid() {
      base <= una <= nxt && base <= End() <= base + |written|
    }
  }

  function FlowOf(s: Socket, base: int): Flow {
    Flow(base, s.una, s.nxt, FinSent(s), s.written)
  }

  /** The receiving half of a socket: the next byte expected, whether the peer's FIN has been
      taken in (`abort` forgets the flag, not the fact), and everything accepted in order. */
  datatype Intake = Intake(ackNum: int, finDone: bool, accepted: seq<byte>) {

    /** The highest acknowledgement number the endpoint may emit. */
    function Acked(): int {
      ackNum + if finDone then 1 else 0
    }
  }

  function IntakeOf(s: Socket): Intake {
    Intake(s.recv.AckNum(Unbounded), s.finReceived || s.state == CLOSED,
           s.delivered + s.recv.Bytes())
  }

  // ---------------------------------------------------------------- the invariant

  /** A segment `g` carries its own part of the stream. */
  predicate Carries(f: Flow, g: Segment)
    requires f.Valid()
  {
    && f.base <= g.seqno && g.seqno + |g.payload| <= f.End()
    && g.payload == f.written[g.seqno - f.base .. g.seqno - f.base + |g.payload|]
  }

  /** An emitted segment, as far as the sender's own stream goes; `wpeer` is the peer's
      receive-window limit. */
  predicate SentSegment(f: Flow, wpeer: int, g: Segment)
    requires f.Valid()
  {
    g.syn || (
      && f.base <= g.seqno && g.End() <= f.nxt
      && |g.payload| <= wpeer && |g.payload| <= MAX_WINDOW
      && (g.Len() > 0 ==> g.End() <= f.una || (g.seqno == f.una && g.End() == f.nxt))
      && (|g.payload| > 0 ==> Carries(f, g))
      && (g.fin ==> f.fin && g.End() == f.nxt && g.payload == []))
  }

  ghost predicate SentWire(f: Flow, wpeer: int, wire: seq<Segment>)
    requires f.Valid()
  {
    forall g :: g in wire ==> SentSegment(f, wpeer, g)
  }

  /** The range [una, nxt) is empty or is exactly the one timed record. */
  predicate HistoryOk(una: int, nxt: int, history: Option<Record>, wire: seq<Segment>) {
    match history
    case None => una == nxt
    case Some(r) =>
      && r.segment in wire && !r.segment.syn
      && r.segment.End() == nxt
      && if r.timed then r.segment.Len() > 0 && (una == r.segment.seqno || una == nxt)
         else r.segment.Len() == 0 && una == nxt
  }

  predicate SenderOk(s: Socket, f: Flow, wpeer: int) {
    && f.Valid()
    && HistoryOk(f.una, f.nxt, s.history, s.wire)
    && (if Sending(s) then s.app == f.written[f.End() - f.base..]
        else |f.written| == f.End() - f.base && f.una >= f.End())
    && (s.state in {FINWAIT2, TIMEWAIT, CLOSED} ==> f.una == f.nxt)
    && (s.receiving ==> s.waiting && !f.fin)
    && 1 <= wpeer
    && 0 <= s.sendWindow <= wpeer && s.sendWindow <= MAX_WINDOW
  }

  /** An emitted segment, as far as the peer's stream goes. */
  predicate AckSegment(acked: int, wmax: int, g: Segment) {
    g.syn || (g.hasAck && 0 <= g.window <= wmax && g.window <= MAX_WINDOW && g.ackno <= acked)
  }

  ghost predicate AckWire(acked: int, wmax: int, wire: seq<Segment>) {
    forall g :: g in wire ==> AckSegment(acked, wmax, g)
  }

  predicate ReceiverOk(s: Socket, i: Intake, wmax: int) {
    && 1 <= wmax < MODULUS
    && (s.state != CLOSED ==> s.maxWindow == wmax)
    && (s.recv.head.Some? ==>
          var e := s.recv.head.value; e.seqno == s.recv.first && 0 < |e.data| <= wmax)
    && (i.finDone ==> s.finSeq == i.ackNum)
    && (s.state in {CLOSEWAIT, LASTACK, CLOSING, TIMEWAIT} ==> s.finReceived)
  }

  /** What the receiver has taken in against what the sender has sent. */
  predicate InStep(f: Flow, i: Intake)
    requires f.Valid()
  {
    && (i.Acked() == f.una || i.Acked() == f.nxt)
    && f.base <= i.ackNum <= f.End()
    && i.accepted == f.written[..i.ackNum - f.base]
    && (i.finDone ==> f.fin && i.ackNum == f.End())
    && (f.fin ==> f.una >= f.End())
  }

  /** An acknowledgement number in flight is an end point of what its reader has sent. */
  predicate EndPoint(una: int, nxt: int, g: Segment) {
    g.syn || g.ackno <= una || g.ackno == nxt
  }

  /** One endpoint by itself. */
  ghost predicate Local(s: Socket, t: Terms, wpeer: int) {
    && SenderOk(s, FlowOf(s, t.base), wpeer)
    && SentWire(FlowOf(s, t.base), wpeer, s.wire)
    && ReceiverOk(s, IntakeOf(s), t.wmax)
    && AckWire(IntakeOf(s).Acked(), t.wmax, s.wire)
  }

  /** Sender flow `f` against the intake of its receiver. */
  predicate Link(f: Flow, i: Intake) {
    f.Valid() && InStep(f, i)
  }

  ghost predicate Good(s: Socket, o: Socket, t: Terms, u: Terms) {
    && Local(s, t, u.wmax) && Local(o, u, t.wmax)
    && Link(FlowOf(s, t.base), IntakeOf(o)) && Link(FlowOf(o, u.base), IntakeOf(s))
    && (forall g :: g in s.wire ==> EndPoint(o.una, o.nxt, g))
    && (forall g :: g in o.wire ==> EndPoint(s.una, s.nxt, g))
  }

  // ---------------------------------------------------------------- receiving

  /** Steps that touch no register the invariant reads, apart from the send window. */
  lemma FrameKeeps(s: Socket, s': Socket, o: Socket, t: Terms, u: Terms)
    requires Good(s, o, t, u)
    requires s' == s.(sendWindow := s'.sendWindow, lwseq := s'.lwseq, lwack := s'.lwack,
                      ackTriggered := s'.ackTriggered, appRecvLen := s'.appRecvLen, fault := s'.fault)
    requires 0 <= s'.sendWindow <= u.wmax && s'.sendWindow <= MAX_WINDOW
    ensures Good(s', o, t, u)
  {
    assert FlowOf(s', t.base) == FlowOf(s, t.base) && IntakeOf(s') == IntakeOf(s);
  }

  lemma AllAckedWire(f: Flow, wpeer: int, wire: seq<Segment>)
    requires f.Valid() && SentWire(f, wpeer, wire)
    ensures SentWire(f.(una := f.nxt), wpeer, wire)
  {
    forall g | g in wire ensures SentSegment(f.(una := f.nxt), wpeer, g) {
      assert SentSegment(f, wpeer, g);
    }
  }

  /** Everything sent so far is acknowledged. */
  lemma AdvanceKeeps(s: Socket, o: Socket, t: Terms, u: Terms)
    requires Good(s, o, t, u) && IntakeOf(o).Acked() == s.nxt
    ensures Good(s.(una := s.nxt), o, t, u)
  {
    var f, s' := FlowOf(s, t.base), s.(una := s.nxt);
    AllAckedWire(f, u.wmax, s.wire);
    assert FlowOf(s', t.base) == f.(una := f.nxt) && IntakeOf(s') == IntakeOf(s);
  }

  lemma HandleAckKeeps(s: Socket, o: Socket, t: Terms, u: Terms, g: Segment)
    requires Good(s, o, t, u) && g in o.wire && !g.syn
    ensures Good(HandleAckOf(Unbounded, s, g), o, t, u)
    ensures var s' := HandleAckOf(Unbounded, s, g);
            (g.ackno == s.nxt ==> s'.una == s'.nxt) && (s'.una == s.una || s'.una == s.nxt)
            && s' == s.(una := s'.una)
  {
    assert AckSegment(IntakeOf(o).Acked(), u.wmax, g);
    assert EndPoint(s.una, s.nxt, g);
    var s' := HandleAckOf(Unbounded, s, g);
    if g.ackno == s.nxt && s.una < s.nxt {
      assert s' == s.(una := s.nxt);
      AdvanceKeeps(s, o, t, u);
    } else {
      assert s' == s;
    }
  }

  /** Raising the highest acknowledgement the endpoint may emit. */
  lemma RaiseAckWire(acked: int, acked': int, wmax: int, wire: seq<Segment>)
    requires AckWire(acked, wmax, wire) && acked <= acked'
    ensures AckWire(acked', wmax, wire)
  {
    forall g | g in wire ensures AckSegment(acked', wmax, g) {
      assert AckSegment(acked, wmax, g);
    }
  }

  lemma HandleFinKeeps(s: Socket, o: Socket, t: Terms, u: Terms, g: Segment)
    requires Good(s, o, t, u) && g in o.wire && !g.syn
    requires s.state != CLOSED
    ensures Good(HandleFin(Unbounded, s, g), o, t, u)
  {
    if g.fin && !s.finReceived {
      var s', i, f := HandleFin(Unbounded, s, g), IntakeOf(s), FlowOf(o, u.base);
      assert SentSegment(f, t.wmax, g);
      assert i.ackNum == f.una == g.seqno;
      assert IntakeOf(s') == i.(finDone := true) && FlowOf(s', t.base) == FlowOf(s, t.base);
      RaiseAckWire(i.Acked(), i.Acked() + 1, t.wmax, s.wire);
    }
  }

  /** An in-order segment is the outstanding one. */
  lemma InOrderIsOutstanding(f: Flow, i: Intake, wpeer: int, g: Segment)
    requires f.Valid() && InStep(f, i) && SentSegment(f, wpeer, g)
    requires !g.syn && |g.payload| > 0 && g.seqno == i.ackNum
    ensures !i.finDone && g.End() == f.nxt && g.End() == i.ackNum + |g.payload|
    ensures InStep(f, Intake(i.ackNum + |g.payload|, false, i.accepted + g.payload))
  {
    var n := i.ackNum - f.base;
    assert f.written[..n] + f.written[n .. n + |g.payload|] == f.written[..n + |g.payload|];
  }

  lemma HandleDataKeeps(s: Socket, o: Socket, t: Terms, u: Terms, g: Segment)
    requires Good(s, o, t, u) && g in o.wire && !g.syn
    ensures Good(HandleData(s, g), o, t, u)
  {
    var s', i, f := HandleData(s, g), IntakeOf(s), FlowOf(o, u.base);
    assert SentSegment(f, t.wmax, g);
    assert FlowOf(s', t.base) == FlowOf(s, t.base);
    if s'.recv != s.recv {
      InOrderIsOutstanding(f, i, t.wmax, g);
      assert s.delivered + [] == s.delivered;
      assert IntakeOf(s') == Intake(i.ackNum + |g.payload|, false, i.accepted + g.payload);
      RaiseAckWire(i.Acked(), i.Acked() + |g.payload|, t.wmax, s.wire);
    } else {
      assert IntakeOf(s') == i;
    }
  }

  lemma UpdateSendWindowKeeps(s: Socket, o: Socket, t: Terms, u: Terms, g: Segment)
    requires Good(s, o, t, u) && g in o.wire && !g.syn
    ensures Good(UpdateSendWindow(Unbounded, s, g), o, t, u)
  {
    assert AckSegment(IntakeOf(o).Acked(), u.wmax, g);
    FrameKeeps(s, UpdateSendWindow(Unbounded, s, g), o, t, u);
  }

  lemma CopyDataKeeps(s: Socket, o: Socket, t: Terms, u: Terms, c: nat, rest: seq<byte>, n: nat)
    requires Good(s, o, t, u) && !Sending(s)
    requires s.recv.head.Some? && c <= |s.recv.head.value.data|
    ensures Good(CopyData(Unbounded, s, c).(app := rest, appRecvLen := n), o, t, u)
  {
    CopyDataIntake(s, c);
    ReadKeeps(s, CopyData(Unbounded, s, c).(app := rest, appRecvLen := n), o, t, u);
  }

  lemma CopyDataIntake(s: Socket, c: nat)
    requires s.recv.head.Some? && c <= |s.recv.head.value.data|
    requires s.recv.head.value.seqno == s.recv.first
    ensures IntakeOf(CopyData(Unbounded, s, c)) == IntakeOf(s)
  {
    var data := s.recv.head.value.data;
    assert data == data[..c] + data[c..];
  }

  /** Steps of the reader that leave the intake as it is. */
  lemma ReadKeeps(s: Socket, s': Socket, o: Socket, t: Terms, u: Terms)
    requires Good(s, o, t, u) && !Sending(s)
    requires s' == s.(recv := s'.recv, delivered := s'.delivered, app := s'.app, appRecvLen := s'.appRecvLen)
    requires IntakeOf(s') == IntakeOf(s) && ReceiverOk(s', IntakeOf(s), t.wmax)
    ensures Good(s', o, t, u)
  {
    assert FlowOf(s', t.base) == FlowOf(s, t.base);
  }

  // ---------------------------------------------------------------- sending

  lemma RepeatWire(s: Socket, s': Socket, o: Socket, t: Terms, u: Terms)
    requires Good(s, o, t, u)
    requires s' == s.(history := s'.history, wire := s'.wire)
    requires forall g :: g in s'.wire <==> g in s.wire
    requires HistoryOk(s.una, s.nxt, s'.history, s'.wire)
    ensures Good(s', o, t, u)
  {
    assert FlowOf(s', t.base) == FlowOf(s, t.base) && IntakeOf(s') == IntakeOf(s);
  }

  lemma UpdateHistoryKeeps(s: Socket, o: Socket, t: Terms, u: Terms,
                           retransmit: bool, sent: bool, timedOut: bool)
    requires Good(s, o, t, u)
    ensures Good(UpdateHistory(Unbounded, s, retransmit, sent, timedOut), o, t, u)
    ensures var s' := UpdateHistory(Unbounded, s, retransmit, sent, timedOut);
            s' == s.(history := s'.history, wire := s'.wire)
  {
    var s' := UpdateHistory(Unbounded, s, retransmit, sent, timedOut);
    assert s' == s.(history := s'.history, wire := s'.wire);
    RepeatWire(s, s', o, t, u);
  }

  lemma RequestBufferKeeps(s: Socket, o: Socket, t: Terms, u: Terms, q: Request)
    requires Good(s, o, t, u)
    ensures var (s', ok) := RequestBuffer(Unbounded, s, q);
            Good(s', o, t, u) && (ok ==> s'.history.None?)
            && s' == s.(history := s'.history)
  {
    UpdateHistoryKeeps(s, o, t, u, false, q.sent, false);
  }

  /** The advertised window never wraps. */
  lemma WindowFits(s: Socket, i: Intake, wmax: int)
    requires ReceiverOk(s, i, wmax) && s.state != CLOSED
    ensures 0 <= wmax - |s.recv.Bytes()|
    ensures ReceiveWindow(s) == if wmax - |s.recv.Bytes()| > MAX_WINDOW then MAX_WINDOW
                                else wmax - |s.recv.Bytes()|
  {
    var d := wmax - |s.recv.Bytes()|;
    assert 0 <= d < MODULUS;
    ModuloIsUnique(d, 0, d);
  }

  lemma AppendSegment(s: Socket, o: Socket, t: Terms, u: Terms, f: Flow, g: Segment)
    requires Good(s, o, t, u) && f.Valid() && !g.syn
    requires SentWire(f, u.wmax, s.wire) && SentSegment(f, u.wmax, g)
    requires AckSegment(IntakeOf(s).Acked(), t.wmax, g)
    requires g.ackno <= o.una || g.ackno == o.nxt
    ensures SentWire(f, u.wmax, s.wire + [g])
    ensures AckWire(IntakeOf(s).Acked(), t.wmax, s.wire + [g])
  {
  }

  lemma TransmitAckKeeps(s: Socket, o: Socket, t: Terms, u: Terms, ack: int)
    requires Good(s, o, t, u) && s.history.None? && s.state != CLOSED
    requires ack == IntakeOf(s).ackNum || ack == IntakeOf(s).Acked()
    ensures Good(Transmit(s, Header(s, ack), false), o, t, u)
  {
    var g, f := Header(s, ack), FlowOf(s, t.base);
    var s' := Transmit(s, g, false);
    WindowFits(s, IntakeOf(s), t.wmax);
    AppendSegment(s, o, t, u, f, g);
    assert FlowOf(s', t.base) == f && IntakeOf(s') == IntakeOf(s);
  }

  lemma SendAckKeeps(s: Socket, o: Socket, t: Terms, u: Terms, ack: int, q: Request)
    requires Good(s, o, t, u) && s.state != CLOSED
    requires ack == IntakeOf(s).ackNum || ack == IntakeOf(s).Acked()
    ensures Good(SendAck(Unbounded, s, ack, q), o, t, u)
    ensures var s' := SendAck(Unbounded, s, ack, q);
            s' == s.(history := s'.history, wire := s'.wire)
  {
    RequestBufferKeeps(s, o, t, u, q);
    var (s1, ok) := RequestBuffer(Unbounded, s, q);
    if ok {
      TransmitAckKeeps(s1, o, t, u, ack);
    }
  }

  lemma SendPendingAckKeeps(s: Socket, o: Socket, t: Terms, u: Terms, q: Request)
    requires Good(s, o, t, u) && s.state != CLOSED
    ensures Good(SendPendingAck(Unbounded, s, q), o, t, u)
    ensures var s' := SendPendingAck(Unbounded, s, q);
            s' == s.(history := s'.history, wire := s'.wire, ackTriggered := false)
  {
    var s1 := s.(ackTriggered := false);
    FrameKeeps(s, s1, o, t, u);
    SendAckKeeps(s1, o, t, u, IntakeOf(s).ackNum, q);
  }

  lemma ProcessAckKeeps(s: Socket, o: Socket, t: Terms, u: Terms, q: Request)
    requires Good(s, o, t, u) && s.state != CLOSED
    ensures Good(ProcessAck(Unbounded, s, q), o, t, u)
    ensures var s' := ProcessAck(Unbounded, s, q);
            s' == s.(history := s'.history, wire := s'.wire, ackTriggered := false)
  {
    if s.ackTriggered {
      SendPendingAckKeeps(s, o, t, u, q);
    }
  }

  /** The flow uses up `k` more numbers, when everything before was acknowledged. */
  lemma ExtendFlow(f: Flow, f': Flow, i: Intake, wpeer: int, mine: seq<Segment>)
    requires f.Valid() && f'.Valid() && !f.fin && f.una == f.nxt
    requires f'.base == f.base && f'.una == f.una && f'.written == f.written
    requires f'.nxt > f.nxt && (f'.fin ==> f'.nxt == f.nxt + 1)
    requires SentWire(f, wpeer, mine) && Link(f, i)
    ensures SentWire(f', wpeer, mine) && Link(f', i)
  {
    forall g | g in mine ensures SentSegment(f', wpeer, g) {
      assert SentSegment(f, wpeer, g);
    }
  }

  /** The pieces of a timed transmission put together. */
  lemma TransmitKeeps(s: Socket, s': Socket, o: Socket, t: Terms, u: Terms, f': Flow, g: Segment)
    requires Good(s, o, t, u) && FlowOf(s', t.base) == f' && IntakeOf(s') == IntakeOf(s)
    requires f'.Valid() && !g.syn
    requires SentWire(f', u.wmax, s.wire) && SentSegment(f', u.wmax, g)
    requires Link(f', IntakeOf(o))
    requires forall h :: h in o.wire ==> EndPoint(f'.una, f'.nxt, h)
    requires AckSegment(IntakeOf(s).Acked(), t.wmax, g) && g.ackno == IntakeOf(s).ackNum
    requires s'.wire == s.wire + [g]
    requires SenderOk(s', f', u.wmax) && ReceiverOk(s', IntakeOf(s), t.wmax)
    ensures Good(s', o, t, u)
  {
    AppendSegment(s, o, t, u, f', g);
  }

  /** A data segment on top of an empty history: within the window, or a one-byte probe. */
  lemma TransmitDataKeeps(s: Socket, o: Socket, t: Terms, u: Terms, len: nat)
    requires Good(s, o, t, u) && s.history.None? && Sending(s)
    requires 0 < len <= |s.app| && (len <= s.sendWindow || (len == 1 && s.sendWindow == 0))
    ensures Good(TransmitData(Unbounded, s, len), o, t, u)
  {
    var g, f := DataSegment(Unbounded, s, len), FlowOf(s, t.base);
    var s', f' := TransmitData(Unbounded, s, len), f.(nxt := f.nxt + len);
    WindowFits(s, IntakeOf(s), t.wmax);
    ExtendFlow(f, f', IntakeOf(o), u.wmax, s.wire);
    TakeFromApp(f, s.app, len);
    TransmitKeeps(s, s', o, t, u, f', g);
  }

  /** The first `len` pending bytes are the next ones of the stream. */
  lemma TakeFromApp(f: Flow, app: seq<byte>, len: nat)
    requires f.Valid() && app == f.written[f.End() - f.base..] && len <= |app|
    ensures app[..len] == f.written[f.End() - f.base .. f.End() - f.base + len]
    ensures app[len..] == f.written[f.End() - f.base + len..]
  {
  }
}
