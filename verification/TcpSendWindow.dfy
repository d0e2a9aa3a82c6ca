/** Two loops of the sender seen as a whole: the window updates of a series of segments, and the
    bytes that one call of `processSendData` turns into segments. */
module TcpSendWindow {
  import opened Basics
  import opened SerialNumbers
  import opened TcpModel
  import opened TcpRefinement

  // ---------------------------------------------------------------- window updates

  /** The updates of a series of segments, in arrival order. */
  function UpdateAll(ar: Arith, s: Socket, gs: seq<Segment>): Socket {
    if gs == [] then s
    else UpdateSendWindow(ar, UpdateAll(ar, s, gs[..|gs| - 1]), gs[|gs| - 1])
  }

  /** Lexicographic order on (sequence number, acknowledgement number). */
  predicate NotAfter(seqno: int, ackno: int, seqno': int, ackno': int) {
    seqno < seqno' || (seqno == seqno' && ackno <= ackno')
  }

  /** The registers hold what segment `gs[k]` carried, and no segment was newer: equal ones came
      earlier, the others are strictly older. */
  predicate NewestAt(s: Socket, gs: seq<Segment>, k: nat) {
    && k < |gs|
    && s.lwseq == gs[k].seqno && s.lwack == gs[k].ackno && s.sendWindow == gs[k].window
    && (forall j :: 0 <= j <= k ==> NotAfter(gs[j].seqno, gs[j].ackno, s.lwseq, s.lwack))
    && (forall j :: k < j < |gs| ==> !NotAfter(s.lwseq, s.lwack, gs[j].seqno, gs[j].ackno))
  }

  /** Whatever the order of arrival, the registers end at the lexicographic maximum of what was
      there and what arrived, and the window is that of the last segment attaining it. */
  lemma {:induction false} WindowOfNewest(s: Socket, gs: seq<Segment>) returns (k: int)
    ensures var s' := UpdateAll(Unbounded, s, gs);
            && s' == s.(sendWindow := s'.sendWindow, lwseq := s'.lwseq, lwack := s'.lwack)
            && (k == -1 ==> s' == s && forall j :: 0 <= j < |gs| ==>
                  !NotAfter(s.lwseq, s.lwack, gs[j].seqno, gs[j].ackno))
            && (k != -1 ==> (0 <= k < |gs| && NewestAt(s', gs, k)
                             && NotAfter(s.lwseq, s.lwack, s'.lwseq, s'.lwack)))
    decreases |gs|
  {
    k := -1;
    if gs != [] {
      var n := |gs| - 1;
      var before := gs[..n];
      var k' := WindowOfNewest(s, before);
      var s1 := UpdateAll(Unbounded, s, before);
      assert gs == before + [gs[n]];
      if NotAfter(s1.lwseq, s1.lwack, gs[n].seqno, gs[n].ackno) {
        k := n;
        NewerTakesOver(s1, before, k', gs[n], s);
      } else {
        k := k';
        assert UpdateAll(Unbounded, s, gs) == s1;
      }
    }
  }

  /** A segment that is not older than the registers becomes the newest. */
  lemma NewerTakesOver(s1: Socket, before: seq<Segment>, k: int, g: Segment, s: Socket)
    requires NotAfter(s1.lwseq, s1.lwack, g.seqno, g.ackno)
    requires if k == -1 then s1 == s && forall j :: 0 <= j < |before| ==>
               !NotAfter(s.lwseq, s.lwack, before[j].seqno, before[j].ackno)
             else 0 <= k < |before| && NewestAt(s1, before, k) && NotAfter(s.lwseq, s.lwack, s1.lwseq, s1.lwack)
    ensures NewestAt(UpdateSendWindow(Unbounded, s1, g), before + [g], |before|)
    ensures NotAfter(s.lwseq, s.lwack, g.seqno, g.ackno)
  {
  }

  /** Two arrival orders of the same segments leave the same registers. */
  lemma OrderOfArrivalIsIrrelevant(s: Socket, gs: seq<Segment>, hs: seq<Segment>)
    requires multiset(gs) == multiset(hs)
    ensures var s1, s2 := UpdateAll(Unbounded, s, gs), UpdateAll(Unbounded, s, hs);
            s1.lwseq == s2.lwseq && s1.lwack == s2.lwack
  {
    var k := WindowOfNewest(s, gs);
    var m := WindowOfNewest(s, hs);
    NotBeyond(s, gs, hs, k, m);
    NotBeyond(s, hs, gs, m, k);
  }

  /** The newest of `gs` occurs in `hs` as well. */
  lemma NotBeyond(s: Socket, gs: seq<Segment>, hs: seq<Segment>, k: int, m: int)
    requires multiset(gs) == multiset(hs)
    requires var s1 := UpdateAll(Unbounded, s, gs);
             (k == -1 && s1.lwseq == s.lwseq && s1.lwack == s.lwack) || (0 <= k < |gs| && NewestAt(s1, gs, k))
    requires var s2 := UpdateAll(Unbounded, s, hs);
             (m == -1 && s2 == s && forall j :: 0 <= j < |hs| ==>
                !NotAfter(s.lwseq, s.lwack, hs[j].seqno, hs[j].ackno))
             || (0 <= m < |hs| && NewestAt(s2, hs, m) && NotAfter(s.lwseq, s.lwack, s2.lwseq, s2.lwack))
    ensures var s1, s2 := UpdateAll(Unbounded, s, gs), UpdateAll(Unbounded, s, hs);
            NotAfter(s1.lwseq, s1.lwack, s2.lwseq, s2.lwack)
  {
    if k != -1 {
      assert gs[k] in multiset(hs);
      assert gs[k] in hs;
      var j :| 0 <= j < |hs| && hs[j] == gs[k];
    }
  }

  /** All numbers compared lie in one half-range of each other. */
  predicate OneHalfRange(s: Socket, gs: seq<Segment>, seqBase: int, ackBase: int) {
    && seqBase <= s.lwseq < seqBase + HALF && ackBase <= s.lwack < ackBase + HALF
    && forall g :: g in gs ==>
         seqBase <= g.seqno < seqBase + HALF && ackBase <= g.ackno < ackBase + HALF
  }

  /** In that case the 32-bit registers follow the same segments. */
  lemma {:induction false} WrappedWindowOfNewest(s: Socket, gs: seq<Segment>, seqBase: int, ackBase: int)
    requires OneHalfRange(s, gs, seqBase, ackBase)
    ensures UpdateAll(Wrapped, Trunc(s), TruncWire(gs)) == Trunc(UpdateAll(Unbounded, s, gs))
    ensures OneHalfRange(UpdateAll(Unbounded, s, gs), gs, seqBase, ackBase)
    decreases |gs|
  {
    if gs != [] {
      var n := |gs| - 1;
      WrappedWindowOfNewest(s, gs[..n], seqBase, ackBase);
      assert TruncWire(gs)[..n] == TruncWire(gs[..n]);
      assert gs[n] in gs;
      UpdateSendWindowCommutes(UpdateAll(Unbounded, s, gs[..n]), gs[n]);
    }
  }

  // ---------------------------------------------------------------- bytes into segments

  /** The payloads of a series of segments, joined. */
  function Payloads(gs: seq<Segment>): seq<byte> {
    if gs == [] then [] else gs[0].payload + Payloads(gs[1..])
  }

  /** Each segment starts where the one before ended, the first one at `from`. */
  predicate Consecutive(ar: Arith, from: int, gs: seq<Segment>)
    decreases |gs|
  {
    gs == [] || (gs[0].seqno == from && Consecutive(ar, ar.Plus(from, |gs[0].payload|), gs[1..]))
  }

  /** From `s` to `s'` the pending bytes were turned into the segments `gs`: no byte is lost or
      doubled, they keep their order, and the sequence numbers advance by as much. */
  predicate Converted(ar: Arith, s: Socket, s': Socket, gs: seq<Segment>) {
    && s'.wire == s.wire + gs
    && s.app == Payloads(gs) + s'.app
    && Consecutive(ar, s.nxt, gs)
    && s'.nxt == (if gs == [] then s.nxt else ar.Plus(s.nxt, |Payloads(gs)|))
  }

  lemma RequestConverts(ar: Arith, s: Socket, q: Request)
    ensures var (s1, ok) := RequestBuffer(ar, s, q);
            s1 == s.(history := s1.history) && (ok ==> s1.history.None?)
            && (s.history.None? ==> s1.history.None?)
  {
  }

  lemma PlusPlus(ar: Arith, a: int, m: int, n: int)
    ensures ar.Plus(ar.Plus(a, m), n) == ar.Plus(a, m + n)
  {
    if ar.Wrapped? {
      TruncatedSum(a + m, n);
    }
  }

  lemma SegmentConverts(ar: Arith, s: Socket, len: nat, q: Request)
    requires len <= |s.app|
    ensures var (s', ok) := SendSegment(ar, s, len, q);
            ok ==> (&& s'.history.Some?
                    && Converted(ar, s, s', [s'.history.value.segment])
                    && s'.history.value.segment.payload == s.app[..len]
                    && s'.history.value.timed && s'.una == s.una
                    && s'.history.value.segment.seqno == s.nxt)
    ensures var (s', ok) := SendSegment(ar, s, len, q); !ok ==> Converted(ar, s, s', [])
  {
    RequestConverts(ar, s, q);
    var (s1, ok) := RequestBuffer(ar, s, q);
    if ok {
      var g := DataSegment(ar, s1, len);
      assert Payloads([g]) == g.payload + Payloads([]) == s.app[..len];
      assert s.app == s.app[..len] + s.app[len..];
      assert [g][1..] == [];
    } else {
      assert s.wire + [] == s.wire && Payloads([]) + s.app == s.app;
    }
  }

  lemma ConvertedJoin(ar: Arith, s: Socket, s1: Socket, s2: Socket, g: Segment, gs: seq<Segment>)
    requires Converted(ar, s, s1, [g]) && Converted(ar, s1, s2, gs)
    ensures Converted(ar, s, s2, [g] + gs)
  {
    assert ([g] + gs)[1..] == gs && [g][1..] == [];
    assert Payloads([g]) == g.payload;
    assert Payloads([g] + gs) == g.payload + Payloads(gs);
    PlusPlus(ar, s.nxt, |g.payload|, |Payloads(gs)|);
    assert s2.wire == s.wire + ([g] + gs);
    assert s.app == (g.payload + Payloads(gs)) + s2.app;
  }

  lemma {:induction false} LoopConverts(ar: Arith, s: Socket, q: Request) returns (gs: seq<Segment>)
    ensures Converted(ar, s, SendLoop(ar, s, q), gs)
    ensures forall g :: g in gs ==> 0 < |g.payload| <= s.mss
    decreases |s.app|
  {
    gs := [];
    assert s.wire + [] == s.wire && Payloads([]) + s.app == s.app;
    if |s.app| > 0 && s.sendWindow > 0 {
      var len := Min3(s.sendWindow, |s.app|, s.mss);
      var (s1, ok) := SendSegment(ar, s, len, q);
      SegmentConverts(ar, s, len, q);
      if ok {
        var g := LoopTurn(ar, s, q, s1);
        var rest := LoopConverts(ar, s1, q);
        ConvertedJoin(ar, s, s1, SendLoop(ar, s1, q), g, rest);
        gs := [g] + rest;
      }
    }
  }

  lemma LoopTurn(ar: Arith, s: Socket, q: Request, s1: Socket) returns (g: Segment)
    requires |s.app| > 0 && s.sendWindow > 0
    requires SendSegment(ar, s, Min3(s.sendWindow, |s.app|, s.mss), q) == (s1, true)
    ensures Converted(ar, s, s1, [g]) && 0 < |g.payload| <= s.mss
    ensures SendLoop(ar, s, q) == SendLoop(ar, s1, q) && s1.mss == s.mss
  {
    SegmentConverts(ar, s, Min3(s.sendWindow, |s.app|, s.mss), q);
    LoopUnfolds(ar, s, q, s1);
    g := s1.history.value.segment;
  }

  lemma LoopUnfolds(ar: Arith, s: Socket, q: Request, s1: Socket)
    requires |s.app| > 0 && s.sendWindow > 0
    requires SendSegment(ar, s, Min3(s.sendWindow, |s.app|, s.mss), q) == (s1, true)
    ensures SendLoop(ar, s, q) == SendLoop(ar, s1, q) && s1.mss == s.mss
  {
    RequestConverts(ar, s, q);
  }

  /** One call of `processSendData` conserves bytes. */
  lemma SendDataConverts(ar: Arith, s: Socket, q: Request, due: bool) returns (gs: seq<Segment>)
    ensures Converted(ar, s, ProcessSendData(ar, s, q, due), gs)
    ensures s.sendWindow == 0 ==> |Payloads(gs)| <= 1
  {
    gs := [];
    assert s.wire + [] == s.wire && Payloads([]) + s.app == s.app;
    if |s.app| > 0 {
      if s.sendWindow == 0 {
        SegmentConverts(ar, s, 1, q);
        var (s1, ok) := SendSegment(ar, s, 1, q);
        if NoTimeoutAhead(s, due) && ok {
          gs := [s1.history.value.segment];
          assert [s1.history.value.segment][1..] == [];
        }
      } else {
        gs := LoopConverts(ar, s, q);
      }
    }
  }

  /** The base configuration stops after one segment: the record just made is timed and not
      acknowledged, so the second pass of the loop gets no buffer. */
  lemma OneSegmentAtATime(ar: Arith, s: Socket, q: Request, due: bool)
    requires !ar.Lt(s.nxt, s.una)
    ensures |ProcessSendData(ar, s, q, due).wire| <= |s.wire| + 1
  {
    if |s.app| > 0 {
      var len := if s.sendWindow == 0 then 1 else Min3(s.sendWindow, |s.app|, s.mss);
      if s.sendWindow >= 0 {
        SegmentConverts(ar, s, len, q);
        var (s1, ok) := SendSegment(ar, s, len, q);
        if ok && s.sendWindow > 0 {
          SecondPassStops(ar, s1, q);
        }
      }
    }
  }

  lemma SecondPassStops(ar: Arith, s: Socket, q: Request)
    requires s.history.Some? && s.history.value.timed && !ar.Lt(s.history.value.segment.seqno, s.una)
    ensures SendLoop(ar, s, q).wire == s.wire
  {
    assert RequestBuffer(ar, s, q) == (s, false);
  }
}
