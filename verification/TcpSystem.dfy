/** Two endpoints over a network that may lose, repeat and reorder segments.
    The network is the pair of `wire` logs: a delivery names any segment the peer has ever
    emitted, so one that is never named is lost, and the order of deliveries is free. */
module TcpSystem {
  import opened Basics
  import opened SerialNumbers
  import opened TcpModel
  import opened TcpInvariant
  import opened TcpSteps
  import opened TcpRefinement

  /** One step of one endpoint.  Application calls start only when no other one is blocked. */
  datatype Action =
    | Write(data: seq<byte>)
    | Receive(buf: seq<byte>)
    | Close(q: Request)
    | Poll(e: Quiet)
    | Wait(e: Quiet)
    | Deliver(index: nat, q: Request)

  function Step(ar: Arith, s: Socket, peer: seq<Segment>, a: Action): Socket {
    if s.fault then s
    else match a
      case Write(data) => if s.waiting then s else BeginWrite(s, data)
      case Receive(buf) => if s.waiting then s else BeginReceive(s, buf)
      case Close(q) => if s.waiting then s else BeginClose(ar, s, q)
      case Poll(e) => if s.waiting then s else PollTail(ar, s, e)
      case Wait(e) => if s.waiting then InputQuiet(ar, s, e) else s
      case Deliver(i, q) => if i < |peer| then Input(ar, s, peer[i], q) else s
  }

  datatype Side = A | B

  datatype Event = Event(side: Side, action: Action)

  datatype System = System(a: Socket, b: Socket)

  function Next(ar: Arith, sys: System, e: Event): System {
    if e.side == A then sys.(a := Step(ar, sys.a, sys.b.wire, e.action))
    else sys.(b := Step(ar, sys.b, sys.a.wire, e.action))
  }

  /** The state after a whole run. */
  function Run(ar: Arith, sys: System, events: seq<Event>): System
    decreases |events|
  {
    if events == [] then sys else Run(ar, Next(ar, sys, events[0]), events[1..])
  }

  // ---------------------------------------------------------------- start

  /** A handshake segment that may still be under way: a SYN or a pure acknowledgement. */
  predicate HandshakeSegment(t: Terms, u: Terms, g: Segment) {
    g.syn || (
      && g.payload == [] && !g.fin && g.hasAck && g.seqno == t.base && g.ackno == u.base
      && 0 <= g.window <= t.wmax && g.window <= MAX_WINDOW)
  }

  /** One endpoint right after the handshake. */
  ghost predicate Opened(s: Socket, t: Terms, u: Terms) {
    && s.state == ESTABLISHED && !s.waiting && !s.receiving && !s.fault
    && s.una == t.base && s.nxt == t.base && s.history.None?
    && s.recv.head.None? && s.recv.first == u.base
    && s.maxWindow == t.wmax && 1 <= t.wmax < MODULUS
    && 0 <= s.sendWindow <= u.wmax && s.sendWindow <= MAX_WINDOW
    && !s.finReceived && s.written == [] && s.delivered == []
    && forall g :: g in s.wire ==> HandshakeSegment(t, u, g)
  }

  ghost predicate Start(sys: System, t: Terms, u: Terms) {
    Opened(sys.a, t, u) && Opened(sys.b, u, t)
  }

  lemma OpenedIsLocal(s: Socket, t: Terms, u: Terms)
    requires Opened(s, t, u) && 1 <= u.wmax
    ensures Local(s, t, u.wmax)
  {
    var f, i := FlowOf(s, t.base), IntakeOf(s);
    assert f.Valid() && i.Acked() == u.base;
    assert SenderOk(s, f, u.wmax);
    assert ReceiverOk(s, i, t.wmax);
    forall g | g in s.wire
      ensures SentSegment(f, u.wmax, g) && AckSegment(i.Acked(), t.wmax, g)
    {
      assert HandshakeSegment(t, u, g);
    }
  }

  lemma OpenedIsLinked(s: Socket, o: Socket, t: Terms, u: Terms)
    requires Opened(s, t, u) && Opened(o, u, t)
    ensures Link(FlowOf(s, t.base), IntakeOf(o))
    ensures forall g :: g in s.wire ==> EndPoint(o.una, o.nxt, g)
  {
    forall g | g in s.wire
      ensures EndPoint(o.una, o.nxt, g)
    {
      assert HandshakeSegment(t, u, g);
    }
  }

  lemma StartIsGood(sys: System, t: Terms, u: Terms)
    requires Start(sys, t, u)
    ensures Good(sys.a, sys.b, t, u)
  {
    OpenedIsLocal(sys.a, t, u);
    OpenedIsLocal(sys.b, u, t);
    OpenedIsLinked(sys.a, sys.b, t, u);
    OpenedIsLinked(sys.b, sys.a, u, t);
  }

  // ---------------------------------------------------------------- every step, every run

  lemma StepKeeps(s: Socket, o: Socket, t: Terms, u: Terms, a: Action)
    requires Good(s, o, t, u)
    ensures Good(Step(Unbounded, s, o.wire, a), o, t, u)
  {
    if !s.fault {
      match a
      case Write(data) => if !s.waiting { BeginWriteKeeps(s, o, t, u, data); }
      case Receive(buf) => if !s.waiting { BeginReceiveKeeps(s, o, t, u, buf); }
      case Close(q) => if !s.waiting { BeginCloseKeeps(s, o, t, u, q); }
      case Poll(e) => if !s.waiting { PollTailKeeps(s, o, t, u, e); }
      case Wait(e) => if s.waiting { InputQuietKeeps(s, o, t, u, e); }
      case Deliver(i, q) => if i < |o.wire| { InputKeeps(s, o, t, u, o.wire[i], q); }
    }
  }

  lemma GoodIsSymmetric(s: Socket, o: Socket, t: Terms, u: Terms)
    requires Good(s, o, t, u)
    ensures Good(o, s, u, t)
  {
  }

  lemma NextKeeps(sys: System, t: Terms, u: Terms, e: Event)
    requires Good(sys.a, sys.b, t, u)
    ensures var sys' := Next(Unbounded, sys, e); Good(sys'.a, sys'.b, t, u)
  {
    if e.side == A {
      StepKeeps(sys.a, sys.b, t, u, e.action);
    } else {
      GoodIsSymmetric(sys.a, sys.b, t, u);
      StepKeeps(sys.b, sys.a, u, t, e.action);
      GoodIsSymmetric(Next(Unbounded, sys, e).b, sys.a, u, t);
    }
  }

  lemma {:induction false} RunKeeps(sys: System, t: Terms, u: Terms, events: seq<Event>)
    requires Good(sys.a, sys.b, t, u)
    ensures var end := Run(Unbounded, sys, events); Good(end.a, end.b, t, u)
    decreases |events|
  {
    if events != [] {
      NextKeeps(sys, t, u, events[0]);
      RunKeeps(Next(Unbounded, sys, events[0]), t, u, events[1..]);
    }
  }

  // ---------------------------------------------------------------- the two ends are alike

  function Exchange(sys: System): System {
    System(sys.b, sys.a)
  }

  function OtherEnds(events: seq<Event>): seq<Event> {
    seq(|events|, i requires 0 <= i < |events| =>
      Event(if events[i].side == A then B else A, events[i].action))
  }

  /** Exchanging the names of the endpoints exchanges the outcome, so what is proved of the
      stream from A to B holds of the stream from B to A. */
  lemma {:induction false} RunIsSymmetric(ar: Arith, sys: System, events: seq<Event>)
    ensures Run(ar, Exchange(sys), OtherEnds(events)) == Exchange(Run(ar, sys, events))
    decreases |events|
  {
    if events != [] {
      assert OtherEnds(events)[1..] == OtherEnds(events[1..]);
      RunIsSymmetric(ar, Next(ar, sys, events[0]), events[1..]);
    }
  }

  // ---------------------------------------------------------------- 32 bits

  function TruncSystem(sys: System): System {
    System(Trunc(sys.a), Trunc(sys.b))
  }

  /** The delivery, if the event is one, is of a segment within its lifetime. */
  predicate LiveStep(s: Socket, peer: seq<Segment>, a: Action) {
    a.Deliver? && a.index < |peer| ==> Live(s, peer[a.index])
  }

  /** Every delivery of the run is of a segment within its lifetime; the numbers are those the
      unbounded engine would have. */
  predicate LiveRun(sys: System, events: seq<Event>)
    decreases |events|
  {
    events == [] || (
      && (if events[0].side == A then LiveStep(sys.a, sys.b.wire, events[0].action)
          else LiveStep(sys.b, sys.a.wire, events[0].action))
      && LiveRun(Next(Unbounded, sys, events[0]), events[1..]))
  }

  lemma StepCommutes(s: Socket, o: Socket, t: Terms, u: Terms, a: Action)
    requires Good(s, o, t, u) && LiveStep(s, o.wire, a)
    ensures Step(Wrapped, Trunc(s), TruncWire(o.wire), a) == Trunc(Step(Unbounded, s, o.wire, a))
  {
    GoodIsTame(s, o, t, u);
    if !s.fault {
      match a
      case Write(data) =>
      case Receive(buf) =>
      case Close(q) => BeginCloseCommutes(s, q);
      case Poll(e) => PollTailCommutes(s, e);
      case Wait(e) => InputQuietCommutes(s, o, t, u, e);
      case Deliver(i, q) => if i < |o.wire| { InputCommutes(s, o, t, u, o.wire[i], q); }
    }
  }

  /** Every run of the 32-bit engine is the truncation of the same run over unbounded numbers. */
  lemma {:induction false} WrappedRunRefines(sys: System, t: Terms, u: Terms, events: seq<Event>)
    requires Good(sys.a, sys.b, t, u) && LiveRun(sys, events)
    ensures Run(Wrapped, TruncSystem(sys), events) == TruncSystem(Run(Unbounded, sys, events))
    decreases |events|
  {
    if events != [] {
      var e := events[0];
      if e.side == A {
        StepCommutes(sys.a, sys.b, t, u, e.action);
      } else {
        GoodIsSymmetric(sys.a, sys.b, t, u);
        StepCommutes(sys.b, sys.a, u, t, e.action);
      }
      assert Next(Wrapped, TruncSystem(sys), e) == TruncSystem(Next(Unbounded, sys, e));
      NextKeeps(sys, t, u, e);
      WrappedRunRefines(Next(Unbounded, sys, e), t, u, events[1..]);
    }
  }
}
