/** The TCP connection engine after the three-way handshake, in the base configuration with
    one history record and one receive-buffer element.

    A `Socket` value is the connection state of one endpoint together with three logs that
    only grow: `wire` (segments handed to the network interface), `written` (bytes the
    application passed to `write`) and `delivered` (bytes copied out to the application).
    Every function below is one member function of the stack; `ar` selects 32-bit or
    unbounded sequence numbers. */
module TcpModel {
  import opened Basics
  import opened SerialNumbers

  const DEFAULT_MSS: int := 536
  const MAX_WINDOW: int := 0xFFFF

  /** The maximum segment size is positive. */
  type Mss = x: int | x > 0 witness DEFAULT_MSS

  /** A TCP segment, as far as the engine reads it. */
  datatype Segment = Segment(
    seqno: int, ackno: int,
    syn: bool, fin: bool, psh: bool, hasAck: bool,
    window: int, payload: seq<byte>)
  {
    /** Sequence numbers consumed by the segment. */
    function Len(): nat {
      |payload| + if fin then 1 else 0
    }

    function End(): int {
      seqno + Len()
    }
  }

  /** The one history record.  `timed` says that a retransmission timeout is armed: data and
      FIN segments are timed, pure acknowledgements are not. */
  datatype Record = Record(segment: Segment, timed: bool)

  /** The one receive-buffer element: unread bytes starting at sequence number `seqno`. */
  datatype Element = Element(seqno: int, data: seq<byte>)

  datatype State =
    | CLOSED | ESTABLISHED | FINWAIT1 | FINWAIT2 | CLOSEWAIT | LASTACK | CLOSING | TIMEWAIT

  datatype RecvBuf = RecvBuf(head: Option<Element>, first: int, push: bool) {

    function Bytes(): seq<byte> {
      if head.Some? then head.value.data else []
    }

    function AckNum(ar: Arith): int {
      match head
      case None => first
      case Some(e) => ar.Plus(e.seqno, |e.data|)
    }

    function Insert(g: Segment, seqnum: int): RecvBuf {
      if seqnum == first && head.None? then
        RecvBuf(Some(Element(seqnum, g.payload)), first, push || g.psh)
      else this
    }

    function Copy(ar: Arith, len: nat): RecvBuf
      requires head.Some? && len <= |head.value.data|
    {
      var e := head.value;
      if |e.data| == len then RecvBuf(None, ar.Plus(first, len), false)
      else RecvBuf(Some(Element(ar.Plus(e.seqno, len), e.data[len..])), ar.Plus(first, len), push)
    }
  }

  datatype Socket = Socket(
    state: State,
    receiving: bool, waiting: bool,
    fault: bool,
    una: int, nxt: int,
    sendWindow: int, lwseq: int, lwack: int,
    history: Option<Record>,
    recv: RecvBuf, maxWindow: int, mss: Mss,
    finReceived: bool, finSeq: int, ackTriggered: bool,
    app: seq<byte>, appRecvLen: nat,
    wire: seq<Segment>, written: seq<byte>, delivered: seq<byte>)

  /** What the environment answers while one send buffer is requested: has the network
      interface finished with the old buffer, and is memory available. */
  datatype Request = Request(sent: bool, mem: bool)

  /** What the environment answers during one pass with no input segment. */
  datatype Quiet = Quiet(sent: bool, timedOut: bool, due: bool, expired: bool,
                         ackRequest: Request, dataRequest: Request)

  // ---------------------------------------------------------------- receiving

  /** `maxReceiveWindow_Bytes` minus the buffered bytes, in `unsigned` arithmetic, cut to the
      16 bits of the header field. */
  function ReceiveWindow(s: Socket): int {
    if s.state == CLOSED then DEFAULT_MSS
    else
      var w := (s.maxWindow - |s.recv.Bytes()|) % MODULUS;
      if w > MAX_WINDOW then MAX_WINDOW else w
  }

  function UpdateSendWindow(ar: Arith, s: Socket, g: Segment): Socket {
    if ar.Lt(g.seqno, s.lwseq) then s
    else if g.seqno == s.lwseq && ar.Lt(g.ackno, s.lwack) then s
    else s.(sendWindow := g.window, lwseq := g.seqno, lwack := g.ackno)
  }

  function HandleAck(ar: Arith, s: Socket, ack: int): Socket {
    if ar.Leq(ack, s.una) then s
    else if ar.Gt(ack, s.nxt) then s
    else s.(una := ack)
  }

  function HandleAckOf(ar: Arith, s: Socket, g: Segment): Socket {
    if g.hasAck then HandleAck(ar, s, g.ackno) else s
  }

  function HandleFin(ar: Arith, s: Socket, g: Segment): Socket {
    if g.fin && !s.finReceived then
      s.(finSeq := ar.Plus(g.seqno, |g.payload|), finReceived := true)
    else s
  }

  function HandleData(s: Socket, g: Segment): Socket {
    if |g.payload| > 0 then s.(recv := s.recv.Insert(g, g.seqno), ackTriggered := true)
    else s
  }

  /** `copyData`; the caller moves on in the application buffer. */
  function CopyData(ar: Arith, s: Socket, len: nat): Socket
    requires s.recv.head.Some? && len <= |s.recv.head.value.data|
  {
    s.(recv := s.recv.Copy(ar, len), delivered := s.delivered + s.recv.head.value.data[..len])
  }

  // ---------------------------------------------------------------- sending

  /** The record is acknowledged, or needs no acknowledgement and has left the interface. */
  predicate Obsolete(ar: Arith, r: Record, una: int, sent: bool) {
    (r.timed && ar.Lt(r.segment.seqno, una)) || (!r.timed && sent)
  }

  function UpdateHistory(ar: Arith, s: Socket, retransmit: bool, sent: bool, timedOut: bool): Socket {
    if s.history.None? then s
    else if Obsolete(ar, s.history.value, s.una, sent) then s.(history := None)
    else if retransmit && s.history.value.timed && timedOut then
      s.(wire := s.wire + [s.history.value.segment])
    else s
  }

  /** `requestSendBufferTCP`: the socket afterwards, and whether a buffer was obtained. */
  function RequestBuffer(ar: Arith, s: Socket, q: Request): (r: (Socket, bool)) {
    var s1 := if s.history.Some? then UpdateHistory(ar, s, false, q.sent, false) else s;
    if s1.history.Some? then (s1, false) else (s1, q.mem)
  }

  function Header(s: Socket, ack: int): Segment {
    Segment(s.nxt, ack, false, false, false, true, ReceiveWindow(s), [])
  }

  /** `send` followed by `history.add`. */
  function Transmit(s: Socket, g: Segment, timed: bool): Socket {
    s.(wire := s.wire + [g], history := Some(Record(g, timed)))
  }

  function SendAck(ar: Arith, s: Socket, ack: int, q: Request): Socket {
    var (s1, ok) := RequestBuffer(ar, s, q);
    if ok then Transmit(s1, Header(s1, ack), false) else s1
  }

  function SendPendingAck(ar: Arith, s: Socket, q: Request): Socket {
    SendAck(ar, s.(ackTriggered := false), s.recv.AckNum(ar), q)
  }

  function ProcessAck(ar: Arith, s: Socket, q: Request): Socket {
    if s.ackTriggered then SendPendingAck(ar, s, q) else s
  }

  predicate FinReady(ar: Arith, s: Socket) {
    s.finReceived && s.recv.AckNum(ar) == s.finSeq
  }

  /** `FIN_complete`, its acknowledgement included. */
  function FinComplete(ar: Arith, s: Socket, q: Request): Socket {
    if FinReady(ar, s) then SendFinAck(ar, s, q) else s
  }

  /** The segment `sendSegment` builds. */
  function DataSegment(ar: Arith, s: Socket, len: nat): Segment
    requires len <= |s.app|
  {
    Header(s, s.recv.AckNum(ar)).(payload := s.app[..len], psh := |s.app| == len)
  }

  /** `lowerSendWindow`, in 16 bits; a closed window is not lowered. */
  function LowerWindow(window: int, len: nat): int {
    if window != 0 then (window - len) % 0x1_0000 else 0
  }

  /** What `sendSegment` does once it has a buffer. */
  function TransmitData(ar: Arith, s: Socket, len: nat): Socket
    requires len <= |s.app|
  {
    Transmit(s.(app := s.app[len..], nxt := ar.Plus(s.nxt, len), sendWindow := LowerWindow(s.sendWindow, len)),
             DataSegment(ar, s, len), true)
  }

  function SendSegment(ar: Arith, s: Socket, len: nat, q: Request): (r: (Socket, bool))
    requires len <= |s.app|
    ensures r.1 ==> r.0.app == s.app[len..]
  {
    var (s1, ok) := RequestBuffer(ar, s, q);
    if ok then (TransmitData(ar, s1, len), true) else (s1, false)
  }

  function Min3(a: int, b: int, c: int): (m: int)
    ensures m <= a && m <= b && m <= c && (m == a || m == b || m == c)
  {
    if a < b then (if a < c then a else c) else (if b < c then b else c)
  }

  /** The loop of `processSendData` while the send window is open. */
  function SendLoop(ar: Arith, s: Socket, q: Request): Socket
    decreases |s.app|
  {
    if |s.app| > 0 && s.sendWindow > 0 then
      var (s1, ok) := SendSegment(ar, s, Min3(s.sendWindow, |s.app|, s.mss), q);
      if ok then SendLoop(ar, s1, q) else s1
    else s
  }

  /** `getNextTimeout() == 0`; `due` is the environment's answer for an armed timeout. */
  predicate NoTimeoutAhead(s: Socket, due: bool) {
    match s.history
    case None => true
    case Some(r) => !r.timed || due
  }

  function ProcessSendData(ar: Arith, s: Socket, q: Request, due: bool): Socket
  {
    if |s.app| == 0 then s
    else if s.sendWindow == 0 then
      if NoTimeoutAhead(s, due) then SendSegment(ar, s, 1, q).0 else s
    else SendLoop(ar, s, q)
  }

  // ---------------------------------------------------------------- state handlers

  /** No call of the application is in progress any more. */
  function EndCalls(s: Socket): Socket {
    s.(receiving := false, app := [], waiting := false)
  }

  /** Nothing of the peer is remembered but the contents of the receive buffer. */
  function ForgetPeer(s: Socket): Socket {
    s.(maxWindow := DEFAULT_MSS, mss := DEFAULT_MSS, finReceived := false, ackTriggered := false)
  }

  /** `abort`, which ends in `resetSocketState`. */
  function Abort(s: Socket): Socket {
    ForgetPeer(EndCalls(s.(history := None, state := CLOSED)))
  }

  /** Acknowledgement, FIN and payload of one segment, in the order the handlers read them. */
  function TakeIn(ar: Arith, s: Socket, g: Segment): Socket {
    HandleData(HandleFin(ar, HandleAckOf(ar, s, g), g), g)
  }

  /** A closed receive window asks for an acknowledgement. */
  function AskIfClosed(s: Socket): Socket {
    if ReceiveWindow(s) == 0 then s.(ackTriggered := true) else s
  }

  /** The end of the handler: the peer's FIN may be complete, and a closed window asks for
      an acknowledgement. */
  function EstablishedTail(ar: Arith, s: Socket, q: Request): Socket {
    var s1 := FinComplete(ar, s, q);
    var s2 := if FinReady(ar, s) then s1.(state := CLOSEWAIT) else s1;
    AskIfClosed(s2)
  }

  function Established(ar: Arith, s: Socket, g: Segment, q: Request): Socket {
    if g.syn then SendPendingAck(ar, s, q)
    else EstablishedTail(ar, UpdateSendWindow(ar, TakeIn(ar, s, g), g), q)
  }

  /** Common end of the sending branch: the `write` call returns when all is acknowledged. */
  function FinishWrite(s: Socket): Socket {
    if |s.app| == 0 && s.history.None? then s.(waiting := false) else s
  }

  /** `copyData` into the application buffer, which moves on by as much. */
  function ReadOut(ar: Arith, s: Socket, c: nat): Socket
    requires s.recv.head.Some? && c <= |s.recv.head.value.data| && c <= |s.app|
  {
    CopyData(ar, s, c).(app := s.app[c..], appRecvLen := s.appRecvLen + c)
  }

  /** A full buffer or a pushed segment ends the `receive` call. */
  function ReturnToReader(s: Socket, done: bool): Socket {
    if done then s.(receiving := false, waiting := false) else s
  }

  function EstablishedReceiving(ar: Arith, s: Socket, q: Request): Socket {
    var n := |s.recv.Bytes()|;
    if n > 0 then
      var s1 := ReadOut(ar, s, if n > |s.app| then |s.app| else n);
      ReturnToReader(ProcessAck(ar, s1, q), |s1.app| == 0 || s.recv.push)
    else ProcessAck(ar, s, q)
  }

  function EstablishedBusy(ar: Arith, s: Socket, e: Quiet): Socket {
    if s.receiving then EstablishedReceiving(ar, s, e.ackRequest)
    else if s.waiting then
      FinishWrite(ProcessSendData(ar, ProcessAck(ar, s, e.ackRequest), e.dataRequest, e.due))
    else s
  }

  function EstablishedQuiet(ar: Arith, s: Socket, e: Quiet): Socket {
    EstablishedBusy(ar, UpdateHistory(ar, s, true, e.sent, e.timedOut), e)
  }

  /** Acknowledge the peer's FIN, possibly once more. */
  function SendFinAck(ar: Arith, s: Socket, q: Request): Socket {
    SendAck(ar, s, ar.Plus(s.finSeq, 1), q)
  }

  /** After the peer's FIN: read the acknowledgement, answer a repeated FIN. */
  function AnswerFin(ar: Arith, s: Socket, g: Segment, q: Request): Socket {
    var s1 := HandleAckOf(ar, s, g);
    if g.fin then SendFinAck(ar, s1, q) else s1
  }

  function CloseWait(ar: Arith, s: Socket, g: Segment, q: Request): Socket {
    if g.syn then SendFinAck(ar, s, q)
    else UpdateSendWindow(ar, AnswerFin(ar, s, g, q), g)
  }

  /** `copyData` to the start of the application buffer, which does not move on. */
  function FlushOut(ar: Arith, s: Socket, c: nat): Socket
    requires s.recv.head.Some? && c <= |s.recv.head.value.data|
  {
    CopyData(ar, s, c).(app := s.recv.head.value.data[..c], appRecvLen := s.appRecvLen + c)
  }

  /** The last `receive`: `copyData` runs even when the receive buffer is empty, and then
      follows the null `head`; the socket is faulted from there on. */
  function CloseWaitReceiving(ar: Arith, s: Socket): Socket {
    var n := |s.recv.Bytes()|;
    var c := if |s.app| > n then n else |s.app|;
    if s.recv.head.None? then s.(fault := true)
    else ReturnToReader(FlushOut(ar, s, c), true)
  }

  function CloseWaitBusy(ar: Arith, s: Socket, e: Quiet): Socket {
    if s.receiving then CloseWaitReceiving(ar, s)
    else if s.waiting then FinishWrite(ProcessSendData(ar, s, e.dataRequest, e.due))
    else s
  }

  function CloseWaitQuiet(ar: Arith, s: Socket, e: Quiet): Socket {
    CloseWaitBusy(ar, UpdateHistory(ar, s, true, e.sent, e.timedOut), e)
  }

  function FinWait1(ar: Arith, s: Socket, g: Segment, q: Request): Socket {
    if g.syn then SendPendingAck(ar, s, q)
    else
      var s1 := TakeIn(ar, s, g);
      var finAcked := g.hasAck && g.ackno == s1.nxt;
      if FinReady(ar, s1) then
        FinComplete(ar, s1, q).(state := if finAcked then TIMEWAIT else CLOSING)
      else s1
  }

  /** Clean up the history, retransmit, send a pending acknowledgement. */
  function AckOnlyQuiet(ar: Arith, s: Socket, e: Quiet): Socket {
    ProcessAck(ar, UpdateHistory(ar, s, true, e.sent, e.timedOut), e.ackRequest)
  }

  function FinWait1Quiet(ar: Arith, s: Socket, e: Quiet): Socket {
    var s1 := AckOnlyQuiet(ar, s, e);
    if s1.history.None? then s1.(state := FINWAIT2) else s1
  }

  function FinWait2(ar: Arith, s: Socket, g: Segment, q: Request): Socket {
    if g.syn then SendPendingAck(ar, s, q)
    else
      var s1 := HandleData(HandleFin(ar, s, g), g);
      if FinReady(ar, s1) then FinComplete(ar, s1, q).(state := TIMEWAIT) else s1
  }

  function FinWait2Quiet(ar: Arith, s: Socket, e: Quiet): Socket {
    AckOnlyQuiet(ar, s, e)
  }

  function LastAck(ar: Arith, s: Socket, g: Segment, q: Request): Socket {
    if g.syn then SendFinAck(ar, s, q) else HandleAckOf(ar, s, g)
  }

  function LastAckQuiet(ar: Arith, s: Socket, e: Quiet): Socket {
    var s1 := UpdateHistory(ar, s, true, e.sent, e.timedOut);
    if s1.history.None? then Abort(s1) else s1
  }

  function Closing(ar: Arith, s: Socket, g: Segment, q: Request): Socket {
    if g.syn then SendFinAck(ar, s, q) else AnswerFin(ar, s, g, q)
  }

  function ClosingQuiet(ar: Arith, s: Socket, e: Quiet): Socket {
    var s1 := UpdateHistory(ar, s, true, e.sent, e.timedOut);
    if s1.history.None? then s1.(state := TIMEWAIT) else s1
  }

  function TimeWait(ar: Arith, s: Socket, g: Segment, q: Request): Socket {
    if g.syn || g.fin then SendFinAck(ar, s, q) else s
  }

  function TimeWaitQuiet(ar: Arith, s: Socket, e: Quiet): Socket {
    var s1 := UpdateHistory(ar, s, true, e.sent, e.timedOut);
    if e.expired then Abort(s1) else s1
  }

  /** `input` with a segment. */
  function Input(ar: Arith, s: Socket, g: Segment, q: Request): Socket {
    match s.state
    case CLOSED => s.(waiting := false)
    case ESTABLISHED => Established(ar, s, g, q)
    case FINWAIT1 => FinWait1(ar, s, g, q)
    case FINWAIT2 => FinWait2(ar, s, g, q)
    case CLOSEWAIT => CloseWait(ar, s, g, q)
    case LASTACK => LastAck(ar, s, g, q)
    case CLOSING => Closing(ar, s, g, q)
    case TIMEWAIT => TimeWait(ar, s, g, q)
  }

  /** `input` without a segment. */
  function InputQuiet(ar: Arith, s: Socket, e: Quiet): Socket
  {
    match s.state
    case CLOSED => s.(waiting := false)
    case ESTABLISHED => EstablishedQuiet(ar, s, e)
    case FINWAIT1 => FinWait1Quiet(ar, s, e)
    case FINWAIT2 => FinWait2Quiet(ar, s, e)
    case CLOSEWAIT => CloseWaitQuiet(ar, s, e)
    case LASTACK => LastAckQuiet(ar, s, e)
    case CLOSING => ClosingQuiet(ar, s, e)
    case TIMEWAIT => TimeWaitQuiet(ar, s, e)
  }

  // ---------------------------------------------------------------- application calls

  /** The part of `write` before its receive loop. */
  function BeginWrite(s: Socket, data: seq<byte>): Socket {
    if s.state == ESTABLISHED || s.state == CLOSEWAIT then
      s.(app := data, waiting := true, written := s.written + data)
    else s
  }

  /** The part of `receive` before its receive loop; `buf` is the caller's buffer. */
  function BeginReceive(s: Socket, buf: seq<byte>): Socket {
    if s.state == ESTABLISHED || s.state == CLOSEWAIT then
      s.(app := buf, appRecvLen := 0, receiving := true, waiting := true)
    else s
  }

  /** The tail of `poll` once its packets have been processed. */
  function PollTail(ar: Arith, s: Socket, e: Quiet): Socket {
    if s.state == ESTABLISHED || s.state == CLOSEWAIT then AckOnlyQuiet(ar, s, e) else s
  }

  /** The FIN segment of `close`, which consumes one sequence number. */
  function SendFin(ar: Arith, s: Socket): Socket {
    Transmit(s.(nxt := ar.Plus(s.nxt, 1)), Header(s, s.recv.AckNum(ar)).(fin := true), true)
  }

  /** It ends the sending states: passive close, or active close. */
  function TransmitFin(ar: Arith, s: Socket): Socket {
    AwaitClose(SendFin(ar, s))
  }

  function AwaitClose(s: Socket): Socket {
    s.(waiting := true, state := if s.state == CLOSEWAIT then LASTACK else FINWAIT1)
  }

  /** The part of `close` before its receive loop. */
  function BeginClose(ar: Arith, s: Socket, q: Request): Socket {
    if s.state == ESTABLISHED || s.state == CLOSEWAIT then
      var (s1, ok) := RequestBuffer(ar, s, q);
      if ok then TransmitFin(ar, s1) else s1
    else s
  }
}
