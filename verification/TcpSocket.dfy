/** The TCP classes as the stack has them: objects whose methods update their fields.  `Model`
    gives the abstract connection state, and every method is proved against the function of
    `TcpModel` that says what it does to that state, in 32-bit arithmetic. */
module TcpSocketClasses {
  import opened Basics
  import opened SerialNumbers
  import opened TcpModel
  import M = TcpModel

  /** A window into the payload of a received segment. */
  class RecvElement {
    var len: nat
    var seqNum: uint32
    var payload: seq<byte>
    var offset: nat

    constructor ()
      ensures Valid()
    {
      len, seqNum, payload, offset := 0, 0, [], 0;
    }

    ghost predicate Valid()
      reads this
    {
      offset + len <= |payload|
    }

    ghost function Value(): Element
      requires Valid()
      reads this
    {
      Element(seqNum, payload[offset .. offset + len])
    }

    method SetSegment(g: Segment, sequenceNumber: uint32)
      modifies this
      ensures Valid() && Value() == Element(sequenceNumber, g.payload)
    {
      len, seqNum, payload, offset := |g.payload|, sequenceNumber, g.payload, 0;
    }

    method Increment(inc: nat)
      requires Valid() && inc <= len
      modifies this
      ensures Valid()
      ensures Value() == Element(Wrapped.Plus(old(seqNum), inc), old(Value().data)[inc..])
    {
      offset := offset + inc;
      seqNum := (seqNum + inc) % MODULUS;
      len := len - inc;
    }
  }

  /** The receive buffer with its one element. */
  class ReceiveBuffer {
    const slot: RecvElement
    var head: RecvElement?
    var firstSeqNum: uint32
    var pushFlag: bool

    constructor (first: uint32)
      ensures Valid() && Value() == RecvBuf(None, first, false) && fresh(slot)
    {
      slot := new RecvElement();
      head, firstSeqNum, pushFlag := null, first, false;
    }

    ghost predicate Valid()
      reads this, slot
    {
      slot.Valid() && (head == null || head == slot)
    }

    ghost function Value(): RecvBuf
      requires Valid()
      reads this, slot
    {
      RecvBuf(if head == null then None else Some(slot.Value()), firstSeqNum, pushFlag)
    }

    method GetRecvBytes() returns (n: nat)
      requires Valid()
      ensures n == |Value().Bytes()|
    {
      if head == null { n := 0; } else { n := head.len; }
    }

    method GetAckNum() returns (n: uint32)
      requires Valid()
      ensures n == Value().AckNum(Wrapped)
    {
      if head == null { n := firstSeqNum; } else { n := (head.seqNum + head.len) % MODULUS; }
    }

    /** The bytes returned are those the original copies to `dst`; it must not be called on an
        empty buffer. */
    method CopyData(len: nat) returns (dst: seq<byte>)
      requires Valid() && head != null && len <= head.len
      modifies this, slot
      ensures Valid() && Value() == old(Value()).Copy(Wrapped, len)
      ensures dst == old(Value().head.value.data)[..len]
    {
      firstSeqNum := (firstSeqNum + len) % MODULUS;
      dst := head.payload[head.offset .. head.offset + len];
      if head.len == len {
        head := null;
        pushFlag := false;
      } else {
        head.Increment(len);
      }
    }

    method Insert(g: Segment, seqnum: uint32) returns (taken: bool)
      requires Valid()
      modifies this, slot
      ensures Valid() && Value() == old(Value()).Insert(g, seqnum)
      ensures taken == (seqnum == old(firstSeqNum) && old(head) == null)
    {
      taken := false;
      if seqnum == firstSeqNum {
        if head == null {
          head := slot;
          head.SetSegment(g, seqnum);
          if g.psh { pushFlag := true; }
          taken := true;
        }
      }
    }
  }

  /** One history record; time is counted in clock ticks of one millisecond, and 0 means that
      no retransmission is armed. */
  class TcpRecord {
    var timeout: nat
    var segment: Segment

    constructor ()
    {
      timeout := 0;
      segment := Segment(0, 0, false, false, false, false, 0, []);
    }

    ghost function Value(): Record
      reads this
    {
      Record(segment, timeout != 0)
    }

    method SetTimeout(msec: nat, now: nat)
      modifies this`timeout
      ensures timeout == (if msec != 0 then now + msec else 0)
    {
      if msec != 0 { timeout := now + msec; } else { timeout := 0; }
    }

    method IsTimedOut(now: nat) returns (b: bool)
      ensures b == (Value().timed && now > timeout)
    {
      if timeout != 0 { b := now > timeout; } else { b := false; }
    }

    method GetRemainingTime(now: nat) returns (msec: nat)
      ensures msec == 0 <==> now >= timeout
      ensures now < timeout ==> now + msec == timeout
    {
      if now > timeout { msec := 0; } else { msec := timeout - now; }
    }
  }

  /** The retransmission history with its one record. */
  class History {
    const record: TcpRecord
    var head: TcpRecord?

    constructor ()
      ensures Valid() && Value() == None && fresh(record)
    {
      record := new TcpRecord();
      head := null;
    }

    ghost predicate Valid()
      reads this
    {
      head == null || head == record
    }

    ghost function Value(): Option<Record>
      requires Valid()
      reads this, record
    {
      if head == null then None else Some(record.Value())
    }

    method IsFull() returns (b: bool)
      requires Valid()
      ensures b == Value().Some?
    {
      b := head != null;
    }

    /** Only on an empty history. */
    method Add(g: Segment, msec: nat, now: nat)
      requires Valid() && Value().None?
      modifies this, record
      ensures Valid() && Value() == Some(Record(g, msec != 0))
    {
      head := record;
      head.segment := g;
      head.SetTimeout(msec, now);
    }

    method Remove()
      requires Valid()
      modifies this
      ensures Valid() && Value() == None
    {
      head := null;
    }

    /** Relative to `now`. */
    method GetNextTimeout(now: nat) returns (msec: nat)
      requires Valid()
      ensures Value().None? ==> msec == 0
      ensures head != null ==> (if now < head.timeout then now + msec == head.timeout else msec == 0)
      ensures Value().Some? && !Value().value.timed ==> msec == 0
    {
      if head == null { msec := 0; } else { msec := head.GetRemainingTime(now); }
    }
  }

  const DEFAULT_RTO: nat := 6000

  /** The timeout of a record after a clean-up at `now` that retransmits it if it is late. */
  function Deadline(now: nat, timeout: nat): nat {
    if timeout != 0 && now > timeout then now + DEFAULT_RTO else timeout
  }

  /** The clock matters to a probe only through the look for the next timeout. */
  lemma TimeoutAheadDecides(s: Socket, q: Request, due: bool, due': bool)
    requires s.history.Some? && s.history.value.timed ==> due == due'
    ensures M.ProcessSendData(Wrapped, s, q, due) == M.ProcessSendData(Wrapped, s, q, due')
  {
    assert M.NoTimeoutAhead(s, due) == M.NoTimeoutAhead(s, due');
  }

  class TcpSocket {
    var state: State
    var receiving: bool
    var waiting: bool
    var seqnumUnacked: uint32
    var seqnumNext: uint32
    var sendWindow: int
    var lwseq: uint32
    var lwack: uint32
    const history: History
    const receiveBuffer: ReceiveBuffer
    var maxReceiveWindowBytes: int
    var mss: Mss
    var finReceived: bool
    var finSeqnum: uint32
    var ackTriggered: bool
    var applicationBuf: seq<byte>
    var applicationRecvLen: nat
    /** What the network interface was given to send. */
    var wire: seq<Segment>
    /** A null element was dereferenced; nothing can be said from here on. */
    var fault: bool
    ghost var written: seq<byte>
    ghost var delivered: seq<byte>

    constructor (first: uint32, peerFirst: uint32, window: int, maxWindow: int, segmentSize: Mss)
      ensures Valid() && fresh(history) && fresh(history.record)
      ensures fresh(receiveBuffer) && fresh(receiveBuffer.slot)
      ensures Model() == Socket(ESTABLISHED, false, false, false, first, first, window, peerFirst, first,
                                None, RecvBuf(None, peerFirst, false), maxWindow, segmentSize,
                                false, 0, false, [], 0, [], [], [])
    {
      state, receiving, waiting, fault := ESTABLISHED, false, false, false;
      seqnumUnacked, seqnumNext, sendWindow, lwseq, lwack := first, first, window, peerFirst, first;
      history := new History();
      receiveBuffer := new ReceiveBuffer(peerFirst);
      maxReceiveWindowBytes, mss := maxWindow, segmentSize;
      finReceived, finSeqnum, ackTriggered := false, 0, false;
      applicationBuf, applicationRecvLen, wire := [], 0, [];
      written, delivered := [], [];
    }

    ghost predicate Valid()
      reads this, history, receiveBuffer, receiveBuffer.slot
    {
      history.Valid() && receiveBuffer.Valid()
    }

    ghost function Model(): Socket
      requires Valid()
      reads this, history, history.record, receiveBuffer, receiveBuffer.slot
    {
      Socket(state, receiving, waiting, fault, seqnumUnacked, seqnumNext, sendWindow, lwseq, lwack,
             history.Value(), receiveBuffer.Value(), maxReceiveWindowBytes, mss,
             finReceived, finSeqnum, ackTriggered, applicationBuf, applicationRecvLen,
             wire, written, delivered)
    }

    /** A record that is timed was not touched. */
    ghost predicate TimerKept(timeout: nat)
      requires Valid()
      reads this, history, history.record, receiveBuffer, receiveBuffer.slot
    {
      history.Value().Some? && history.Value().value.timed ==> history.record.timeout == timeout
    }

    /** What a pass without a segment finds: `now` is the clock at the clean-up of the history
        and `later` the clock at the look for the next timeout. */
    ghost function Answers(sent: bool, now: nat, later: nat, expired: bool, qa: Request, qd: Request): Quiet
      reads this, history, history.record
    {
      var timeout := history.record.timeout;
      Quiet(sent, now > timeout, later >= Deadline(now, timeout), expired, qa, qd)
    }

    // ------------------------------------------------------------ receiving

    method GetReceiveWindow() returns (w: int)
      requires Valid()
      ensures w == M.ReceiveWindow(Model())
    {
      if state == CLOSED {
        w := DEFAULT_MSS;
      } else {
        var n := receiveBuffer.GetRecvBytes();
        w := (maxReceiveWindowBytes - n) % MODULUS;
        if w > MAX_WINDOW { w := MAX_WINDOW; }
      }
    }

    method UpdateSendWindow(g: Segment)
      requires Valid() && 0 <= g.seqno < MODULUS && 0 <= g.ackno < MODULUS
      modifies this`sendWindow, this`lwseq, this`lwack
      ensures Valid() && Model() == M.UpdateSendWindow(Wrapped, old(Model()), g)
    {
      if Wrapped.Lt(g.seqno, lwseq) { return; }
      if g.seqno == lwseq && Wrapped.Lt(g.ackno, lwack) { return; }
      sendWindow := g.window;
      lwseq := g.seqno;
      lwack := g.ackno;
    }

    method HandleAck(acknum: uint32)
      requires Valid()
      modifies this`seqnumUnacked
      ensures Valid() && Model() == M.HandleAck(Wrapped, old(Model()), acknum)
    {
      if Wrapped.Leq(acknum, seqnumUnacked) { return; }
      if Wrapped.Gt(acknum, seqnumNext) { return; }
      seqnumUnacked := acknum;
    }

    method HandleFin(g: Segment)
      requires Valid()
      modifies this`finSeqnum, this`finReceived
      ensures Valid() && Model() == M.HandleFin(Wrapped, old(Model()), g)
    {
      if g.fin && !finReceived {
        finSeqnum := (g.seqno + |g.payload|) % MODULUS;
        finReceived := true;
      }
    }

    method HandleData(g: Segment) returns (needToFree: bool)
      requires Valid() && 0 <= g.seqno < MODULUS
      modifies this`ackTriggered, receiveBuffer, receiveBuffer.slot
      ensures Valid() && Model() == M.HandleData(old(Model()), g)
      ensures !needToFree ==> Model().recv.head == Some(Element(g.seqno, g.payload))
    {
      needToFree := true;
      if |g.payload| > 0 {
        var taken := receiveBuffer.Insert(g, g.seqno);
        needToFree := !taken;
        ackTriggered := true;
      }
    }

    // ------------------------------------------------------------ sending

    /** The loop over the history; the base class has no second record. */
    method UpdateHistory(doRetransmit: bool, sent: bool, now: nat)
      requires Valid()
      modifies this`wire, history, history.record
      ensures Valid()
      ensures Model() == M.UpdateHistory(Wrapped, old(Model()), doRetransmit, sent, now > old(history.record.timeout))
      ensures old(history.head == null) ==> history.record.timeout == old(history.record.timeout)
      ensures history.head != null ==>
                history.record.timeout ==
                if doRetransmit then Deadline(now, old(history.record.timeout)) else old(history.record.timeout)
    {
      var record := history.head;
      while record != null
        invariant Valid()
        invariant record != null ==> record == history.head && Model() == old(Model())
                                     && record.timeout == old(history.record.timeout)
        invariant record == null ==>
          Model() == M.UpdateHistory(Wrapped, old(Model()), doRetransmit, sent, now > old(history.record.timeout))
        invariant old(history.head == null) ==> history.record.timeout == old(history.record.timeout)
        invariant record == null && history.head != null ==>
          history.record.timeout ==
          if doRetransmit then Deadline(now, old(history.record.timeout)) else old(history.record.timeout)
        decreases if record == null then 0 else 1
      {
        if (record.timeout != 0 && Wrapped.Lt(record.segment.seqno, seqnumUnacked))
           || (record.timeout == 0 && sent) {
          history.Remove();
        } else if doRetransmit {
          var late := record.IsTimedOut(now);
          if late {
            Retransmit(now);
          }
        }
        record := null;
      }
    }

    method Retransmit(now: nat)
      requires Valid() && history.head != null && history.record.timeout != 0
      modifies this`wire, history.record
      ensures Valid() && Model() == old(Model()).(wire := old(wire) + [old(history.record.segment)])
      ensures history.record.timeout == now + DEFAULT_RTO
    {
      wire := wire + [history.head.segment];
      history.head.SetTimeout(DEFAULT_RTO, now);
    }

    method RequestSendBuffer(q: Request, now: nat) returns (ok: bool)
      requires Valid()
      modifies this`wire, history, history.record
      ensures Valid() && (Model(), ok) == M.RequestBuffer(Wrapped, old(Model()), q)
      ensures ok ==> history.Value().None?
      ensures history.head != null ==> history.record.timeout == old(history.record.timeout)
    {
      var full := history.IsFull();
      if full {
        UpdateHistory(false, q.sent, now);
        full := history.IsFull();
        if full {
          return false;
        }
      }
      ok := q.mem;
    }

    method WriteHeaderWithAck(ack: int) returns (g: Segment)
      requires Valid()
      ensures g == M.Header(Model(), ack)
    {
      var w := GetReceiveWindow();
      g := Segment(seqnumNext, ack, false, false, false, true, w, []);
    }

    /** `send` and `history.add`. */
    method SendAndRecord(g: Segment, msec: nat, now: nat)
      requires Valid() && history.Value().None?
      modifies this`wire, history, history.record
      ensures Valid() && Model() == M.Transmit(old(Model()), g, msec != 0)
    {
      wire := wire + [g];
      history.Add(g, msec, now);
    }

    method SendAck(ack: int, q: Request, now: nat)
      requires Valid()
      modifies this`wire, history, history.record
      ensures Valid() && Model() == M.SendAck(Wrapped, old(Model()), ack, q)
      ensures TimerKept(old(history.record.timeout))
    {
      var ok := RequestSendBuffer(q, now);
      if ok {
        var g := WriteHeaderWithAck(ack);
        SendAndRecord(g, 0, now);
      }
    }

    method SendPendingAck(q: Request, now: nat)
      requires Valid()
      modifies this`wire, this`ackTriggered, history, history.record
      ensures Valid() && Model() == M.SendPendingAck(Wrapped, old(Model()), q)
      ensures TimerKept(old(history.record.timeout))
    {
      ackTriggered := false;
      var n := receiveBuffer.GetAckNum();
      SendAck(n, q, now);
    }

    method ProcessAck(q: Request, now: nat)
      requires Valid()
      modifies this`wire, this`ackTriggered, history, history.record
      ensures Valid() && Model() == M.ProcessAck(Wrapped, old(Model()), q)
      ensures TimerKept(old(history.record.timeout))
    {
      if ackTriggered {
        SendPendingAck(q, now);
      }
    }

    method SendFinAck(q: Request, now: nat)
      requires Valid()
      modifies this`wire, history, history.record
      ensures Valid() && Model() == M.SendFinAck(Wrapped, old(Model()), q)
    {
      SendAck((finSeqnum + 1) % MODULUS, q, now);
    }

    method FinComplete(q: Request, now: nat) returns (complete: bool)
      requires Valid()
      modifies this`wire, history, history.record
      ensures Valid() && Model() == M.FinComplete(Wrapped, old(Model()), q)
      ensures complete == M.FinReady(Wrapped, old(Model()))
    {
      complete := false;
      var n := receiveBuffer.GetAckNum();
      if finReceived && n == finSeqnum {
        SendFinAck(q, now);
        complete := true;
      }
    }

    method WriteDataSegment(len: nat) returns (g: Segment)
      requires Valid() && len <= |applicationBuf|
      ensures g == M.DataSegment(Wrapped, Model(), len)
    {
      var n := receiveBuffer.GetAckNum();
      g := WriteHeaderWithAck(n);
      g := g.(payload := applicationBuf[..len]);
      if |applicationBuf| == len {
        g := g.(psh := true);
      }
    }

    /** The part of `sendSegment` after the buffer is obtained. */
    method TransmitSegment(len: nat, now: nat)
      requires Valid() && len <= |applicationBuf| && history.Value().None?
      modifies this`wire, this`applicationBuf, this`seqnumNext, this`sendWindow, history, history.record
      ensures Valid() && Model() == M.TransmitData(Wrapped, old(Model()), len)
    {
      var g := WriteDataSegment(len);
      TakeFromBuffer(len);
      SendAndRecord(g, DEFAULT_RTO, now);
    }

    /** The state update of `sendSegment`. */
    method TakeFromBuffer(len: nat)
      requires Valid() && len <= |applicationBuf|
      modifies this`applicationBuf, this`seqnumNext, this`sendWindow
      ensures Valid() && var s := old(Model());
              Model() == s.(app := s.app[len..], nxt := Wrapped.Plus(s.nxt, len),
                            sendWindow := M.LowerWindow(s.sendWindow, len))
    {
      applicationBuf := applicationBuf[len..];
      seqnumNext := (seqnumNext + len) % MODULUS;
      if sendWindow != 0 {
        LowerSendWindow(len);
      }
    }

    method LowerSendWindow(subtract: nat)
      requires Valid() && sendWindow != 0
      modifies this`sendWindow
      ensures sendWindow == M.LowerWindow(old(sendWindow), subtract)
    {
      sendWindow := (sendWindow - subtract) % 0x1_0000;
    }

    method SendSegment(len: nat, q: Request, now: nat) returns (ok: bool)
      requires Valid() && len <= |applicationBuf|
      modifies this`wire, this`applicationBuf, this`seqnumNext, this`sendWindow, history, history.record
      ensures Valid() && (Model(), ok) == M.SendSegment(Wrapped, old(Model()), len, q)
    {
      ok := RequestSendBuffer(q, now);
      if ok {
        TransmitSegment(len, now);
      }
    }

    /** One byte, unless a timeout lies ahead. */
    method ProbeClosedWindow(q: Request, now: nat)
      requires Valid() && |applicationBuf| > 0 && sendWindow == 0
      modifies this`wire, this`applicationBuf, this`seqnumNext, this`sendWindow, history, history.record
      ensures Valid()
      ensures Model() == M.ProcessSendData(Wrapped, old(Model()), q, now >= old(history.record.timeout))
    {
      var rest := history.GetNextTimeout(now);
      if rest == 0 {
        var ok := SendSegment(1, q, now);
      }
    }

    /** The probe of a closed window, or the sending loop. */
    method ProcessSendData(q: Request, now: nat)
      requires Valid()
      modifies this`wire, this`applicationBuf, this`seqnumNext, this`sendWindow, history, history.record
      ensures Valid()
      ensures Model() == M.ProcessSendData(Wrapped, old(Model()), q, now >= old(history.record.timeout))
    {
      if |applicationBuf| == 0 {
        return;
      }
      if sendWindow == 0 {
        ProbeClosedWindow(q, now);
        return;
      }
      while |applicationBuf| > 0 && sendWindow > 0
        invariant Valid()
        invariant M.SendLoop(Wrapped, Model(), q) == M.SendLoop(Wrapped, old(Model()), q)
        invariant mss == old(mss)
        decreases |applicationBuf|
      {
        ghost var s := Model();
        var ok := SendSegment(Min3(sendWindow, |applicationBuf|, mss), q, now);
        assert (Model(), ok) == M.SendSegment(Wrapped, s, Min3(s.sendWindow, |s.app|, s.mss), q);
        if !ok {
          return;
        }
      }
    }

    // ------------------------------------------------------------ state handlers

    method ClearHistory()
      requires Valid()
      modifies history
      ensures Valid() && history.head == null
    {
      var record := history.head;
      while record != null
        invariant Valid() && (record != null ==> record == history.head)
        invariant record == null ==> history.head == null
        decreases if record == null then 0 else 1
      {
        history.Remove();
        record := history.head;
      }
    }

    method ResetSocketState()
      requires Valid() && history.head == null
      modifies this`state, this`receiving, this`maxReceiveWindowBytes, this`finReceived,
               this`ackTriggered, this`mss, this`applicationBuf, this`waiting
      ensures Valid() && Model() == M.Abort(old(Model()))
    {
      state := CLOSED;
      EndCalls();
      ForgetPeer();
    }

    method EndCalls()
      requires Valid()
      modifies this`receiving, this`applicationBuf, this`waiting
      ensures Valid() && Model() == M.EndCalls(old(Model()))
    {
      receiving, waiting := false, false;
      applicationBuf := [];
    }

    method ForgetPeer()
      requires Valid()
      modifies this`maxReceiveWindowBytes, this`mss, this`finReceived, this`ackTriggered
      ensures Valid() && Model() == M.ForgetPeer(old(Model()))
    {
      maxReceiveWindowBytes, mss := DEFAULT_MSS, DEFAULT_MSS;
      finReceived, ackTriggered := false, false;
    }

    method Abort()
      requires Valid()
      modifies this, history
      ensures Valid() && Model() == M.Abort(old(Model()))
    {
      ClearHistory();
      ResetSocketState();
    }

    /** Acknowledgement, FIN and payload, in this order. */
    method TakeIn(g: Segment)
      requires Valid() && 0 <= g.seqno < MODULUS && 0 <= g.ackno < MODULUS
      modifies this`seqnumUnacked, this`finSeqnum, this`finReceived, this`ackTriggered,
               receiveBuffer, receiveBuffer.slot
      ensures Valid() && Model() == M.TakeIn(Wrapped, old(Model()), g)
    {
      if g.hasAck {
        HandleAck(g.ackno);
      }
      HandleFin(g);
      var needToFree := HandleData(g);
    }

    method Established(g: Segment, q: Request, now: nat)
      requires Valid() && 0 <= g.seqno < MODULUS && 0 <= g.ackno < MODULUS
      modifies this, receiveBuffer, receiveBuffer.slot, history, history.record
      ensures Valid() && Model() == M.Established(Wrapped, old(Model()), g, q)
    {
      if g.syn {
        SendPendingAck(q, now);
        return;
      }
      TakeIn(g);
      UpdateSendWindow(g);
      EstablishedTail(q, now);
    }

    method EstablishedTail(q: Request, now: nat)
      requires Valid()
      modifies this`wire, this`state, this`ackTriggered, history, history.record
      ensures Valid() && Model() == M.EstablishedTail(Wrapped, old(Model()), q)
    {
      ghost var s := Model();
      var complete := FinComplete(q, now);
      ghost var s1 := Model();
      if complete {
        state := CLOSEWAIT;
      }
      ghost var s2 := Model();
      assert s2 == if M.FinReady(Wrapped, s) then s1.(state := CLOSEWAIT) else s1;
      AskIfClosed();
    }

    /** A closed receive window asks for an acknowledgement. */
    method AskIfClosed()
      requires Valid()
      modifies this`ackTriggered
      ensures Valid() && Model() == M.AskIfClosed(old(Model()))
    {
      var w := GetReceiveWindow();
      if w == 0 {
        ackTriggered := true;
      }
    }

    /** `copyData` into the application's buffer. */
    method ReadOut(c: nat)
      requires Valid() && receiveBuffer.head != null && c <= receiveBuffer.head.len && c <= |applicationBuf|
      modifies this`delivered, this`applicationBuf, this`applicationRecvLen, receiveBuffer, receiveBuffer.slot
      ensures Valid() && Model() == M.ReadOut(Wrapped, old(Model()), c)
    {
      ghost var s := Model();
      var bytes := receiveBuffer.CopyData(c);
      delivered := delivered + bytes;
      assert Model() == M.CopyData(Wrapped, s, c);
      applicationRecvLen := applicationRecvLen + c;
      applicationBuf := applicationBuf[c..];
    }

    method EstablishedReceiving(q: Request, now: nat)
      requires Valid()
      modifies this, receiveBuffer, receiveBuffer.slot, history, history.record
      ensures Valid() && Model() == M.EstablishedReceiving(Wrapped, old(Model()), q)
    {
      var n := receiveBuffer.GetRecvBytes();
      if n > 0 {
        var pushed := receiveBuffer.pushFlag;
        ReadOut(if n > |applicationBuf| then |applicationBuf| else n);
        ReturnToReader(pushed, q, now);
      } else {
        ProcessAck(q, now);
      }
    }

    /** Acknowledge what was read; a full buffer or a pushed segment ends the call. */
    method ReturnToReader(pushed: bool, q: Request, now: nat)
      requires Valid()
      modifies this, history, history.record
      ensures Valid()
      ensures Model() == M.ReturnToReader(M.ProcessAck(Wrapped, old(Model()), q), old(|applicationBuf|) == 0 || pushed)
    {
      ProcessAck(q, now);
      if |applicationBuf| == 0 || pushed {
        receiving, waiting := false, false;
      }
    }

    method EndReceive()
      requires Valid()
      modifies this`receiving, this`waiting
      ensures Valid() && Model() == M.ReturnToReader(old(Model()), true)
    {
      receiving, waiting := false, false;
    }

    method FinishWrite()
      requires Valid()
      modifies this`waiting
      ensures Valid() && Model() == M.FinishWrite(old(Model()))
    {
      if |applicationBuf| == 0 && history.head == null {
        waiting := false;
      }
    }

    /** The pass without a segment; `now` is the clock at the clean-up of the history and `later`
        the clock at the look for the next timeout. */
    method EstablishedQuiet(sent: bool, now: nat, later: nat, expired: bool, qa: Request, qd: Request)
      requires Valid()
      modifies this, receiveBuffer, receiveBuffer.slot, history, history.record
      ensures Valid()
      ensures Model() == M.EstablishedQuiet(Wrapped, old(Model()), old(Answers(sent, now, later, expired, qa, qd)))
    {
      ghost var e := Answers(sent, now, later, expired, qa, qd);
      UpdateHistory(true, sent, now);
      if receiving {
        EstablishedReceiving(qa, now);
      } else if waiting {
        ProcessAck(qa, now);
        ghost var s := Model();
        ghost var due := later >= history.record.timeout;
        ProcessSendData(qd, later);
        TimeoutAheadDecides(s, qd, due, e.due);
        FinishWrite();
      }
    }

    method CloseWait(g: Segment, q: Request, now: nat)
      requires Valid() && 0 <= g.seqno < MODULUS && 0 <= g.ackno < MODULUS
      modifies this, history, history.record
      ensures Valid() && Model() == M.CloseWait(Wrapped, old(Model()), g, q)
    {
      if g.syn {
        SendFinAck(q, now);
        return;
      }
      AnswerFin(g, q, now);
      UpdateSendWindow(g);
    }

    method AnswerFin(g: Segment, q: Request, now: nat)
      requires Valid() && 0 <= g.ackno < MODULUS
      modifies this, history, history.record
      ensures Valid() && Model() == M.AnswerFin(Wrapped, old(Model()), g, q)
    {
      if g.hasAck {
        HandleAck(g.ackno);
      }
      if g.fin {
        SendFinAck(q, now);
      }
    }

    /** Copy `c` bytes to the start of the application's buffer, which does not move on. */
    method FlushOut(c: nat)
      requires Valid() && receiveBuffer.head != null && c <= receiveBuffer.head.len
      modifies this`delivered, this`applicationBuf, this`applicationRecvLen, receiveBuffer, receiveBuffer.slot
      ensures Valid() && Model() == M.FlushOut(Wrapped, old(Model()), c)
    {
      applicationRecvLen := applicationRecvLen + c;
      var bytes := receiveBuffer.CopyData(c);
      applicationBuf, delivered := bytes, delivered + bytes;
    }

    /** The original calls `copyData` whether or not there is an element. */
    method CloseWaitReceiving()
      requires Valid()
      modifies this`fault, this`delivered, this`applicationBuf, this`applicationRecvLen,
               this`receiving, this`waiting, receiveBuffer, receiveBuffer.slot
      ensures Valid() && Model() == M.CloseWaitReceiving(Wrapped, old(Model()))
    {
      var n := receiveBuffer.GetRecvBytes();
      if receiveBuffer.head == null {
        fault := true;
      } else {
        FlushOut(if |applicationBuf| > n then n else |applicationBuf|);
        EndReceive();
      }
    }

    method CloseWaitQuiet(sent: bool, now: nat, later: nat, expired: bool, qa: Request, qd: Request)
      requires Valid()
      modifies this, receiveBuffer, receiveBuffer.slot, history, history.record
      ensures Valid()
      ensures Model() == M.CloseWaitQuiet(Wrapped, old(Model()), old(Answers(sent, now, later, expired, qa, qd)))
    {
      ghost var e := Answers(sent, now, later, expired, qa, qd);
      UpdateHistory(true, sent, now);
      if receiving {
        CloseWaitReceiving();
      } else if waiting {
        ghost var s := Model();
        ghost var due := later >= history.record.timeout;
        ProcessSendData(qd, later);
        TimeoutAheadDecides(s, qd, due, e.due);
        FinishWrite();
      }
    }

    method FinWait1(g: Segment, q: Request, now: nat)
      requires Valid() && 0 <= g.seqno < MODULUS && 0 <= g.ackno < MODULUS
      modifies this, receiveBuffer, receiveBuffer.slot, history, history.record
      ensures Valid() && Model() == M.FinWait1(Wrapped, old(Model()), g, q)
    {
      if g.syn {
        SendPendingAck(q, now);
        return;
      }
      TakeIn(g);
      var finAcked := g.hasAck && g.ackno == seqnumNext;
      var complete := FinComplete(q, now);
      if complete {
        state := if finAcked then TIMEWAIT else CLOSING;
      }
    }

    /** Clean up the history, retransmit, send a pending acknowledgement. */
    method AckOnlyQuiet(sent: bool, now: nat, later: nat, expired: bool, qa: Request, qd: Request)
      requires Valid()
      modifies this`wire, this`ackTriggered, history, history.record
      ensures Valid()
      ensures Model() == M.AckOnlyQuiet(Wrapped, old(Model()), old(Answers(sent, now, later, expired, qa, qd)))
    {
      ghost var e := Answers(sent, now, later, expired, qa, qd);
      UpdateHistory(true, sent, now);
      ProcessAck(qa, now);
    }

    method FinWait2(g: Segment, q: Request, now: nat)
      requires Valid() && 0 <= g.seqno < MODULUS
      modifies this, receiveBuffer, receiveBuffer.slot, history, history.record
      ensures Valid() && Model() == M.FinWait2(Wrapped, old(Model()), g, q)
    {
      if g.syn {
        SendPendingAck(q, now);
        return;
      }
      HandleFin(g);
      var needToFree := HandleData(g);
      var complete := FinComplete(q, now);
      if complete {
        state := TIMEWAIT;
      }
    }

    /** `input` with a segment: the state switch. */
    method Input(g: Segment, q: Request, now: nat)
      requires Valid() && 0 <= g.seqno < MODULUS && 0 <= g.ackno < MODULUS
      modifies this, receiveBuffer, receiveBuffer.slot, history, history.record
      ensures Valid() && Model() == M.Input(Wrapped, old(Model()), g, q)
    {
      match state
      case CLOSED => waiting := false;
      case ESTABLISHED => Established(g, q, now);
      case FINWAIT1 => FinWait1(g, q, now);
      case FINWAIT2 => FinWait2(g, q, now);
      case CLOSEWAIT => CloseWait(g, q, now);
      case LASTACK =>
        if g.syn {
          SendFinAck(q, now);
        } else if g.hasAck {
          HandleAck(g.ackno);
        }
      case CLOSING =>
        if g.syn {
          SendFinAck(q, now);
        } else {
          AnswerFin(g, q, now);
        }
      case TIMEWAIT =>
        if g.syn || g.fin {
          SendFinAck(q, now);
        }
    }

    /** `input` without a segment. */
    method InputQuiet(sent: bool, now: nat, later: nat, expired: bool, qa: Request, qd: Request)
      requires Valid()
      modifies this, receiveBuffer, receiveBuffer.slot, history, history.record
      ensures Valid()
      ensures Model() == M.InputQuiet(Wrapped, old(Model()), old(Answers(sent, now, later, expired, qa, qd)))
    {
      ghost var e := Answers(sent, now, later, expired, qa, qd);
      match state
      case CLOSED => waiting := false;
      case ESTABLISHED => EstablishedQuiet(sent, now, later, expired, qa, qd);
      case FINWAIT1 =>
        AckOnlyQuiet(sent, now, later, expired, qa, qd);
        if history.head == null {
          state := FINWAIT2;
        }
      case FINWAIT2 => AckOnlyQuiet(sent, now, later, expired, qa, qd);
      case CLOSEWAIT => CloseWaitQuiet(sent, now, later, expired, qa, qd);
      case LASTACK => LastAckQuiet(sent, now, e);
      case CLOSING => ClosingQuiet(sent, now, e);
      case TIMEWAIT => TimeWaitQuiet(sent, now, expired, e);
    }

    method LastAckQuiet(sent: bool, now: nat, ghost e: Quiet)
      requires Valid() && e.sent == sent && e.timedOut == (now > history.record.timeout)
      modifies this, history, history.record
      ensures Valid() && Model() == M.LastAckQuiet(Wrapped, old(Model()), e)
    {
      UpdateHistory(true, sent, now);
      if history.head == null {
        Abort();
      }
    }

    method ClosingQuiet(sent: bool, now: nat, ghost e: Quiet)
      requires Valid() && e.sent == sent && e.timedOut == (now > history.record.timeout)
      modifies this, history, history.record
      ensures Valid() && Model() == M.ClosingQuiet(Wrapped, old(Model()), e)
    {
      UpdateHistory(true, sent, now);
      if history.head == null {
        state := TIMEWAIT;
      }
    }

    method TimeWaitQuiet(sent: bool, now: nat, expired: bool, ghost e: Quiet)
      requires Valid() && e.sent == sent && e.timedOut == (now > history.record.timeout) && e.expired == expired
      modifies this, history, history.record
      ensures Valid() && Model() == M.TimeWaitQuiet(Wrapped, old(Model()), e)
    {
      UpdateHistory(true, sent, now);
      if expired {
        Abort();
      }
    }

    // ------------------------------------------------------------ application calls

    /** `write` up to its receive loop. */
    method BeginWrite(data: seq<byte>)
      requires Valid()
      modifies this`applicationBuf, this`waiting, this`written
      ensures Valid() && Model() == M.BeginWrite(old(Model()), data)
    {
      if state == ESTABLISHED || state == CLOSEWAIT {
        applicationBuf := data;
        waiting := true;
        written := written + data;
      }
    }

    /** `receive` up to its receive loop. */
    method BeginReceive(buf: seq<byte>)
      requires Valid()
      modifies this`applicationBuf, this`applicationRecvLen, this`receiving, this`waiting
      ensures Valid() && Model() == M.BeginReceive(old(Model()), buf)
    {
      if state == ESTABLISHED || state == CLOSEWAIT {
        applicationBuf := buf;
        applicationRecvLen := 0;
        receiving := true;
        waiting := true;
      }
    }

    /** `close` up to its receive loop. */
    method BeginClose(q: Request, now: nat)
      requires Valid()
      modifies this, history, history.record
      ensures Valid() && Model() == M.BeginClose(Wrapped, old(Model()), q)
    {
      if state == CLOSEWAIT || state == ESTABLISHED {
        var ok := RequestSendBuffer(q, now);
        if ok {
          SendFin(now);
          AwaitClose();
        }
      }
    }

    method AwaitClose()
      requires Valid()
      modifies this`state, this`waiting
      ensures Valid() && Model() == M.AwaitClose(old(Model()))
    {
      waiting := true;
      state := if state == CLOSEWAIT then LASTACK else FINWAIT1;
    }

    method SendFin(now: nat)
      requires Valid() && history.Value().None?
      modifies this`wire, this`seqnumNext, history, history.record
      ensures Valid() && Model() == M.SendFin(Wrapped, old(Model()))
    {
      var n := receiveBuffer.GetAckNum();
      var g := WriteHeaderWithAck(n);
      seqnumNext := (seqnumNext + 1) % MODULUS;
      SendAndRecord(g.(fin := true), DEFAULT_RTO, now);
    }
  }
}
