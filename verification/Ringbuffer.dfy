/** The packet ring between the network side (one producer) and a socket (one consumer).

    First the sequential behaviour: the class is a bounded first-in first-out queue that keeps
    one slot free.  Then the two tasks interleaved, one memory access at a time: slots are
    written and read in two halves, and every run is shown to be a run of an atomic queue. */
module Ringbuffer {
  import opened Basics

  // ---------------------------------------------------------------- index arithmetic

  /** The next slot, going around. */
  function Following(pos: nat, size: nat): nat {
    if pos + 1 == size then 0 else pos + 1
  }

  /** This is what the remainder in the code computes. */
  lemma FollowingIs(pos: nat, size: nat)
    requires pos < size
    ensures (pos + 1) % size == Following(pos, size) < size
  {
  }

  /** The slots from `outpos` up to `inpos`, going around. */
  function Between<T>(slots: seq<T>, inpos: nat, outpos: nat): (r: seq<T>)
    requires inpos < |slots| && outpos < |slots|
    ensures |r| < |slots|
  {
    if outpos <= inpos then slots[outpos..inpos] else slots[outpos..] + slots[..inpos]
  }

  /** The two index tests decide empty and full. */
  lemma IndexTests<T>(slots: seq<T>, inpos: nat, outpos: nat)
    requires inpos < |slots| && outpos < |slots|
    ensures outpos == inpos <==> Between(slots, inpos, outpos) == []
    ensures Following(inpos, |slots|) == outpos <==> |Between(slots, inpos, outpos)| == |slots| - 1
  {
  }

  /** Writing the slot at `inpos` does not touch the queued ones. */
  lemma WriteOutside<T>(slots: seq<T>, inpos: nat, outpos: nat, v: T)
    requires inpos < |slots| && outpos < |slots|
    ensures Between(slots[inpos := v], inpos, outpos) == Between(slots, inpos, outpos)
  {
  }

  /** Moving `inpos` on appends the slot there. */
  lemma PublishIn<T>(slots: seq<T>, inpos: nat, outpos: nat)
    requires inpos < |slots| && outpos < |slots| && Following(inpos, |slots|) != outpos
    ensures Following(inpos, |slots|) < |slots|
    ensures Between(slots, Following(inpos, |slots|), outpos) == Between(slots, inpos, outpos) + [slots[inpos]]
  {
  }

  /** Moving `outpos` on removes the first. */
  lemma PublishOut<T>(slots: seq<T>, inpos: nat, outpos: nat)
    requires inpos < |slots| && outpos < |slots| && inpos != outpos
    ensures Following(outpos, |slots|) < |slots|
    ensures Between(slots, inpos, outpos) == [slots[outpos]] + Between(slots, inpos, Following(outpos, |slots|))
  {
    if outpos < inpos {
      assert slots[outpos..inpos] == [slots[outpos]] + slots[outpos + 1 .. inpos];
    } else {
      assert slots[outpos..] == [slots[outpos]] + slots[outpos + 1 ..];
      assert slots[outpos..] + slots[..inpos] == [slots[outpos]] + (slots[outpos + 1 ..] + slots[..inpos]);
    }
  }

  /** A bounded queue after `v` was offered to it. */
  function Offered<T>(queue: seq<T>, capacity: nat, v: T): seq<T> {
    if |queue| < capacity then queue + [v] else queue
  }

  // ---------------------------------------------------------------- the class

  class BasicRingbuffer {
    const buffer: array<Pointer>
    var inpos: byte
    var outpos: byte

    ghost predicate Valid()
      reads this
    {
      2 <= buffer.Length <= 255 && inpos < buffer.Length && outpos < buffer.Length
    }

    /** The queued pointers, oldest first. */
    ghost function Contents(): seq<Pointer>
      reads this, buffer
      requires Valid()
    {
      Between(buffer[..], inpos, outpos)
    }

    ghost function Capacity(): nat
      reads this
      requires Valid()
    {
      buffer.Length - 1
    }

    /** The size is limited to what 8-bit indices can count. */
    constructor (size: nat)
      ensures Valid() && Contents() == []
      ensures Capacity() == (if size < 2 then 1 else if size > 255 then 254 else size - 1)
      ensures fresh(buffer)
    {
      var n := if size < 2 then 2 else if size > 255 then 255 else size;
      buffer := new Pointer[n](_ => NULL);
      inpos, outpos := 0, 0;
    }

    /** A full ring drops the value. */
    method Put(val: Pointer)
      requires Valid()
      modifies this`inpos, buffer
      ensures Valid()
      ensures Contents() == Offered(old(Contents()), Capacity(), val)
    {
      ghost var before := buffer[..];
      IndexTests(before, inpos, outpos);
      FollowingIs(inpos, buffer.Length);
      if (inpos + 1) % buffer.Length != outpos {
        WriteOutside(before, inpos, outpos, val);
        buffer[inpos] := val;
        assert buffer[..] == before[inpos := val];
        PublishIn(buffer[..], inpos, outpos);
        inpos := (inpos + 1) % buffer.Length;
      }
    }

    method Get() returns (val: Pointer)
      requires Valid()
      modifies this`outpos
      ensures Valid()
      ensures old(Contents()) == [] ==> val == NULL && Contents() == []
      ensures old(Contents()) != [] ==> old(Contents()) == [val] + Contents()
    {
      IndexTests(buffer[..], inpos, outpos);
      FollowingIs(outpos, buffer.Length);
      if outpos != inpos {
        PublishOut(buffer[..], inpos, outpos);
        val := buffer[outpos];
        outpos := (outpos + 1) % buffer.Length;
      } else {
        val := NULL;
      }
    }

    method IsFull() returns (full: bool)
      requires Valid()
      ensures full <==> |Contents()| == Capacity()
    {
      IndexTests(buffer[..], inpos, outpos);
      FollowingIs(inpos, buffer.Length);
      full := if (inpos + 1) % buffer.Length != outpos then false else true;
    }
  }

  // ---------------------------------------------------------------- one producer, one consumer

  /** A slot during a write holds nothing usable. */
  datatype Slot = Torn | Whole(val: Pointer)

  /** Where the producer stands in `put`. */
  datatype Producer = ProducerIdle | PutChecked(val: Pointer) | PutHalf(val: Pointer) | PutWritten(val: Pointer)

  /** Where the consumer stands in `get`; the second half of a read may see another value. */
  datatype Consumer = ConsumerIdle | GetChecked | GetHalf(first: Slot) | GetRead(slot: Slot)

  datatype Ring = Ring(slots: seq<Slot>, inpos: nat, outpos: nat, producer: Producer, consumer: Consumer)

  /** One memory access of one of the tasks. */
  datatype Step =
    | CallPut(val: Pointer) | WriteFirstHalf | WriteSecondHalf | PublishPut
    | CallGet | ReadFirstHalf | ReadSecondHalf | PublishGet

  /** What a step decides, if anything. */
  datatype Outcome = Nothing | Enqueued(val: Pointer) | Refused(val: Pointer) | Dequeued(slot: Slot) | FoundEmpty

  ghost predicate WellFormed(s: Ring) {
    2 <= |s.slots| && s.inpos < |s.slots| && s.outpos < |s.slots|
  }

  /** A step of a task that stands elsewhere does nothing. */
  ghost function Take(s: Ring, a: Step): (r: (Ring, Outcome))
    requires WellFormed(s)
  {
    var n := |s.slots|;
    match a
    case CallPut(val) =>
      if !s.producer.ProducerIdle? then (s, Nothing)
      else if Following(s.inpos, n) != s.outpos then (s.(producer := PutChecked(val)), Nothing)
      else (s, Refused(val))
    case WriteFirstHalf =>
      if s.producer.PutChecked? then
        (s.(slots := s.slots[s.inpos := Torn], producer := PutHalf(s.producer.val)), Nothing)
      else (s, Nothing)
    case WriteSecondHalf =>
      if s.producer.PutHalf? then
        (s.(slots := s.slots[s.inpos := Whole(s.producer.val)], producer := PutWritten(s.producer.val)), Nothing)
      else (s, Nothing)
    case PublishPut =>
      if s.producer.PutWritten? then
        (s.(inpos := Following(s.inpos, n), producer := ProducerIdle), Enqueued(s.producer.val))
      else (s, Nothing)
    case CallGet =>
      if !s.consumer.ConsumerIdle? then (s, Nothing)
      else if s.outpos != s.inpos then (s.(consumer := GetChecked), Nothing)
      else (s, FoundEmpty)
    case ReadFirstHalf =>
      if s.consumer.GetChecked? then (s.(consumer := GetHalf(s.slots[s.outpos])), Nothing)
      else (s, Nothing)
    case ReadSecondHalf =>
      if s.consumer.GetHalf? then
        (s.(consumer := GetRead(if s.slots[s.outpos] == s.consumer.first then s.consumer.first else Torn)), Nothing)
      else (s, Nothing)
    case PublishGet =>
      if s.consumer.GetRead? then
        (s.(outpos := Following(s.outpos, n), consumer := ConsumerIdle), Dequeued(s.consumer.slot))
      else (s, Nothing)
  }

  /** The slots in use hold exactly the values of `queue`. */
  ghost predicate Holds(s: Ring, queue: seq<Pointer>)
    requires WellFormed(s)
  {
    var b := Between(s.slots, s.inpos, s.outpos);
    |b| == |queue| && forall i | 0 <= i < |b| :: b[i] == Whole(queue[i])
  }

  /** What holds between any two steps. */
  ghost predicate Good(s: Ring, queue: seq<Pointer>) {
    && WellFormed(s)
    && Holds(s, queue)
    && (!s.producer.ProducerIdle? ==> |queue| < |s.slots| - 1)
    && (s.producer.PutWritten? ==> s.slots[s.inpos] == Whole(s.producer.val))
    && (!s.consumer.ConsumerIdle? ==> |queue| > 0)
    && (s.consumer.GetHalf? ==> s.consumer.first == Whole(queue[0]))
    && (s.consumer.GetRead? ==> s.consumer.slot == Whole(queue[0]))
  }

  /** The atomic queue: the only outcomes it allows, and what they leave. */
  ghost predicate Legal(queue: seq<Pointer>, capacity: nat, o: Outcome, queue': seq<Pointer>) {
    match o
    case Nothing => queue' == queue
    case Enqueued(v) => |queue| < capacity && queue' == queue + [v]
    case Refused(v) => |queue| == capacity && queue' == queue
    case Dequeued(slot) => slot.Whole? && queue == [slot.val] + queue'
    case FoundEmpty => queue == [] && queue' == queue
  }

  /** The queue after an outcome. */
  ghost function After(queue: seq<Pointer>, o: Outcome): seq<Pointer> {
    match o
    case Enqueued(v) => queue + [v]
    case Dequeued(_) => if queue == [] then [] else queue[1..]
    case _ => queue
  }

  lemma ProducerStepIsAtomic(s: Ring, queue: seq<Pointer>, a: Step)
    requires Good(s, queue) && (a.CallPut? || a.WriteFirstHalf? || a.WriteSecondHalf? || a.PublishPut?)
    ensures var (s', o) := Take(s, a);
            Good(s', After(queue, o)) && Legal(queue, |s.slots| - 1, o, After(queue, o)) && |s'.slots| == |s.slots|
  {
    IndexTests(s.slots, s.inpos, s.outpos);
    match a
    case CallPut(val) =>
    case WriteFirstHalf =>
      if s.producer.PutChecked? { UnseenWrite(s, queue, Torn); }
    case WriteSecondHalf =>
      if s.producer.PutHalf? { UnseenWrite(s, queue, Whole(s.producer.val)); }
    case PublishPut =>
      if s.producer.PutWritten? { PublishIn(s.slots, s.inpos, s.outpos); }
  }

  /** The consumer does not look at the slot that is being written. */
  lemma UnseenWrite(s: Ring, queue: seq<Pointer>, v: Slot)
    requires Good(s, queue)
    ensures Holds(s.(slots := s.slots[s.inpos := v]), queue)
  {
    WriteOutside(s.slots, s.inpos, s.outpos, v);
  }

  lemma ConsumerStepIsAtomic(s: Ring, queue: seq<Pointer>, a: Step)
    requires Good(s, queue) && (a.CallGet? || a.ReadFirstHalf? || a.ReadSecondHalf? || a.PublishGet?)
    ensures var (s', o) := Take(s, a);
            Good(s', After(queue, o)) && Legal(queue, |s.slots| - 1, o, After(queue, o)) && |s'.slots| == |s.slots|
  {
    match a
    case CallGet => IndexTests(s.slots, s.inpos, s.outpos);
    case PublishGet => if s.consumer.GetRead? { OutIsAtomic(s, queue); }
    case _ => if !s.consumer.ConsumerIdle? { OldestSlot(s, queue); }
  }

  /** The slot at `outpos` holds the oldest value. */
  lemma OldestSlot(s: Ring, queue: seq<Pointer>)
    requires Good(s, queue) && !s.consumer.ConsumerIdle?
    ensures s.slots[s.outpos] == Whole(queue[0])
  {
    IndexTests(s.slots, s.inpos, s.outpos);
    PublishOut(s.slots, s.inpos, s.outpos);
  }

  lemma OutIsAtomic(s: Ring, queue: seq<Pointer>)
    requires Good(s, queue) && s.consumer.GetRead?
    ensures var (s', o) := Take(s, PublishGet);
            Good(s', After(queue, o)) && Legal(queue, |s.slots| - 1, o, After(queue, o)) && |s'.slots| == |s.slots|
  {
    IndexTests(s.slots, s.inpos, s.outpos);
    PublishOut(s.slots, s.inpos, s.outpos);
    var n := |s.slots|;
    var b, b' := Between(s.slots, s.inpos, s.outpos), Between(s.slots, s.inpos, Following(s.outpos, n));
    assert b' == b[1..];
    assert queue == [queue[0]] + queue[1..];
    assert Holds(s.(outpos := Following(s.outpos, n)), queue[1..]);
  }

  /** Every step is invisible or is one operation of the atomic queue. */
  lemma StepIsAtomic(s: Ring, queue: seq<Pointer>, a: Step)
    requires Good(s, queue)
    ensures var (s', o) := Take(s, a);
            Good(s', After(queue, o)) && Legal(queue, |s.slots| - 1, o, After(queue, o)) && |s'.slots| == |s.slots|
  {
    match a
    case CallPut(_) => ProducerStepIsAtomic(s, queue, a);
    case WriteFirstHalf => ProducerStepIsAtomic(s, queue, a);
    case WriteSecondHalf => ProducerStepIsAtomic(s, queue, a);
    case PublishPut => ProducerStepIsAtomic(s, queue, a);
    case _ => ConsumerStepIsAtomic(s, queue, a);
  }

  // ---------------------------------------------------------------- runs

  ghost predicate Moves(s: Ring, a: Step, s': Ring, o: Outcome) {
    WellFormed(s) && Take(s, a) == (s', o)
  }

  /** The states, steps and outcomes of a run. */
  ghost predicate Execution(states: seq<Ring>, steps: seq<Step>, trace: seq<Outcome>) {
    && |states| == |steps| + 1 && |trace| == |steps|
    && forall i | 0 <= i < |steps| :: Moves(states[i], steps[i], states[i + 1], trace[i])
  }

  /** The machine is total: any order of steps is a run. */
  lemma {:induction false} EveryOrderRuns(s: Ring, steps: seq<Step>) returns (states: seq<Ring>, trace: seq<Outcome>)
    requires WellFormed(s)
    ensures Execution(states, steps, trace) && states[0] == s && WellFormed(states[|steps|])
    decreases |steps|
  {
    var n := |steps|;
    if n == 0 {
      states, trace := [s], [];
    } else {
      states, trace := EveryOrderRuns(s, steps[..n - 1]);
      var (s', o) := Take(states[n - 1], steps[n - 1]);
      states, trace := states + [s'], trace + [o];
    }
  }

  /** An atomic queue can produce the outcomes, passing through the contents `queues`. */
  ghost predicate AtomicTrace(queues: seq<seq<Pointer>>, capacity: nat, trace: seq<Outcome>) {
    && |queues| == |trace| + 1
    && forall i | 0 <= i < |trace| :: Legal(queues[i], capacity, trace[i], queues[i + 1])
  }

  /** Every interleaving of the memory accesses of one producer and one consumer is a run of
      an atomic queue with one slot less than the ring: refusals only when it is full, empty
      answers only when it is empty, and no torn value is ever handed out. */
  lemma RunIsAtomic(states: seq<Ring>, steps: seq<Step>, trace: seq<Outcome>, queue: seq<Pointer>)
    returns (queues: seq<seq<Pointer>>)
    requires Execution(states, steps, trace) && Good(states[0], queue)
    ensures AtomicTrace(queues, |states[0].slots| - 1, trace) && queues[0] == queue
    ensures Good(states[|steps|], queues[|steps|])
    ensures |states[|steps|].slots| == |states[0].slots|
  {
    queues := [queue];
    var i, now, capacity := 0, queue, |states[0].slots| - 1;
    while i < |steps|
      invariant 0 <= i <= |steps| && |queues| == i + 1 && queues[0] == queue && queues[i] == now
      invariant Good(states[i], now) && |states[i].slots| - 1 == capacity
      invariant AtomicTrace(queues, capacity, trace[..i])
    {
      var next := MoveIsAtomic(states[i], now, steps[i], states[i + 1], trace[i]);
      TraceGrows(queues, capacity, trace, i, next);
      queues, now, i := queues + [next], next, i + 1;
    }
    assert trace[..i] == trace;
  }

  lemma TraceGrows(queues: seq<seq<Pointer>>, capacity: nat, trace: seq<Outcome>, i: nat, next: seq<Pointer>)
    requires i < |trace| && AtomicTrace(queues, capacity, trace[..i])
    requires Legal(queues[i], capacity, trace[i], next)
    ensures AtomicTrace(queues + [next], capacity, trace[..i + 1])
  {
  }

  lemma MoveIsAtomic(s: Ring, queue: seq<Pointer>, a: Step, s': Ring, o: Outcome) returns (next: seq<Pointer>)
    requires Good(s, queue) && Moves(s, a, s', o)
    ensures Good(s', next) && Legal(queue, |s.slots| - 1, o, next) && |s'.slots| == |s.slots|
  {
    StepIsAtomic(s, queue, a);
    next := After(queue, o);
  }

  ghost function Accepted(trace: seq<Outcome>): seq<Pointer> {
    if trace == [] then []
    else Accepted(trace[..|trace| - 1]) + (if trace[|trace| - 1].Enqueued? then [trace[|trace| - 1].val] else [])
  }

  ghost function HandedOut(trace: seq<Outcome>): seq<Slot> {
    if trace == [] then []
    else HandedOut(trace[..|trace| - 1]) + (if trace[|trace| - 1].Dequeued? then [trace[|trace| - 1].slot] else [])
  }

  ghost function Wholes(vals: seq<Pointer>): seq<Slot> {
    seq(|vals|, i requires 0 <= i < |vals| => Whole(vals[i]))
  }

  /** An atomic trace loses, duplicates and reorders nothing. */
  lemma {:induction false} NothingIsLost(queues: seq<seq<Pointer>>, capacity: nat, trace: seq<Outcome>)
    requires AtomicTrace(queues, capacity, trace)
    ensures Wholes(queues[0] + Accepted(trace)) == HandedOut(trace) + Wholes(queues[|trace|])
    decreases |trace|
  {
    var n := |trace|;
    if n == 0 {
      assert queues[0] + Accepted(trace) == queues[0];
    } else {
      NothingIsLost(queues[..n], capacity, trace[..n - 1]);
      Conserved(queues[0], Accepted(trace[..n - 1]), HandedOut(trace[..n - 1]), queues[n - 1], capacity,
                trace[n - 1], queues[n]);
    }
  }

  lemma WholesAppend(vals: seq<Pointer>, v: Pointer)
    ensures Wholes(vals + [v]) == Wholes(vals) + [Whole(v)]
  {
  }

  lemma Conserved(first: seq<Pointer>, accepted: seq<Pointer>, out: seq<Slot>, queue: seq<Pointer>,
                  capacity: nat, o: Outcome, next: seq<Pointer>)
    requires Legal(queue, capacity, o, next) && Wholes(first + accepted) == out + Wholes(queue)
    ensures Wholes(first + (accepted + (if o.Enqueued? then [o.val] else [])))
         == out + (if o.Dequeued? then [o.slot] else []) + Wholes(next)
  {
    if o.Enqueued? {
      assert first + (accepted + [o.val]) == (first + accepted) + [o.val];
      WholesAppend(first + accepted, o.val);
      WholesAppend(queue, o.val);
      assert out + [] == out;
    } else {
      assert accepted + [] == accepted && out + [] == out;
      if o.Dequeued? {
        assert Wholes(queue) == [o.slot] + Wholes(next);
      }
    }
  }

  /** The ring as constructed. */
  ghost predicate Initial(s: Ring) {
    && 2 <= |s.slots| <= 255 && s.inpos == 0 && s.outpos == 0
    && s.producer.ProducerIdle? && s.consumer.ConsumerIdle?
  }

  /** From the empty ring: the values taken out are, in order, the first of the values put in,
      none torn, none lost, none twice; the others are inside, and they are fewer than the
      slots. */
  lemma RingIsFifo(states: seq<Ring>, steps: seq<Step>, trace: seq<Outcome>) returns (queues: seq<seq<Pointer>>)
    requires Execution(states, steps, trace) && Initial(states[0])
    ensures AtomicTrace(queues, |states[0].slots| - 1, trace) && queues[0] == []
    ensures Wholes(Accepted(trace)) == HandedOut(trace) + Wholes(queues[|steps|])
    ensures var end := states[|steps|];
            WellFormed(end) && Between(end.slots, end.inpos, end.outpos) == Wholes(queues[|steps|])
  {
    queues := RunIsAtomic(states, steps, trace, []);
    NothingIsLost(queues, |states[0].slots| - 1, trace);
    assert [] + Accepted(trace) == Accepted(trace);
  }

  /** What the consumer would find, in order. */
  ghost function Inside(s: Ring): seq<Slot>
    requires WellFormed(s)
  {
    Between(s.slots, s.inpos, s.outpos)
  }

  /** Four accesses that meet no other step do what `BasicRingbuffer.Put` does. */
  lemma PutUndisturbed(states: seq<Ring>, trace: seq<Outcome>, queue: seq<Pointer>, val: Pointer)
    requires Execution(states, [CallPut(val), WriteFirstHalf, WriteSecondHalf, PublishPut], trace)
    requires Good(states[0], queue) && states[0].producer.ProducerIdle?
    ensures var capacity := |states[0].slots| - 1;
            && trace == (if |queue| < capacity then [Nothing, Nothing, Nothing, Enqueued(val)]
                         else [Refused(val), Nothing, Nothing, Nothing])
            && Good(states[4], Offered(queue, capacity, val)) && states[4].producer.ProducerIdle?
            && Inside(states[4]) == Offered(Inside(states[0]), capacity, Whole(val))
  {
    var steps := [CallPut(val), WriteFirstHalf, WriteSecondHalf, PublishPut];
    var s0, s1, s2, s3, s4 := states[0], states[1], states[2], states[3], states[4];
    IndexTests(s0.slots, s0.inpos, s0.outpos);
    assert Moves(s0, steps[0], s1, trace[0]) && Moves(s1, steps[1], s2, trace[1]);
    assert Moves(s2, steps[2], s3, trace[2]) && Moves(s3, steps[3], s4, trace[3]);
    var q1 := MoveIsAtomic(s0, queue, steps[0], s1, trace[0]);
    var q2 := MoveIsAtomic(s1, q1, steps[1], s2, trace[1]);
    var q3 := MoveIsAtomic(s2, q2, steps[2], s3, trace[2]);
    var q4 := MoveIsAtomic(s3, q3, steps[3], s4, trace[3]);
    InsideIs(s0, queue);
    InsideIs(s4, q4);
    WholesAppend(queue, val);
  }

  lemma InsideIs(s: Ring, queue: seq<Pointer>)
    requires Good(s, queue)
    ensures Inside(s) == Wholes(queue)
  {
  }

  /** Four accesses that meet no other step do what `BasicRingbuffer.Get` does. */
  lemma GetUndisturbed(states: seq<Ring>, trace: seq<Outcome>, queue: seq<Pointer>)
    requires Execution(states, [CallGet, ReadFirstHalf, ReadSecondHalf, PublishGet], trace)
    requires Good(states[0], queue) && states[0].consumer.ConsumerIdle?
    ensures WellFormed(states[4]) && states[4].consumer.ConsumerIdle?
    ensures if Inside(states[0]) == [] then trace == [FoundEmpty, Nothing, Nothing, Nothing] && Inside(states[4]) == []
            else && trace[..3] == [Nothing, Nothing, Nothing] && trace[3].Dequeued? && trace[3].slot.Whole?
                 && Inside(states[0]) == [trace[3].slot] + Inside(states[4])
  {
    var steps := [CallGet, ReadFirstHalf, ReadSecondHalf, PublishGet];
    var s0, s1, s2, s3, s4 := states[0], states[1], states[2], states[3], states[4];
    IndexTests(s0.slots, s0.inpos, s0.outpos);
    assert Moves(s0, steps[0], s1, trace[0]) && Moves(s1, steps[1], s2, trace[1]);
    assert Moves(s2, steps[2], s3, trace[2]) && Moves(s3, steps[3], s4, trace[3]);
    if s0.inpos != s0.outpos {
      PublishOut(s0.slots, s0.inpos, s0.outpos);
      assert s0.slots[s0.outpos] == Inside(s0)[0] == Whole(queue[0]);
    }
  }
}
