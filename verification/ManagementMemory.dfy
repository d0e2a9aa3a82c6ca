/** The management memory: a pool of send buffers together with a table of slots that must
    name exactly the buffers handed out.

    `Management` is the state on which the laws are stated; class `SharedMemory` does the same
    with an array of slots.  Whether the network interface has finished with a buffer is an
    answer of the environment: the set `sent`. */
module ManagementMemory {
  import opened Basics
  import opened Mempool

  // ---------------------------------------------------------------- send-buffer states

  const INVALID: byte := 0x00
  const WRITING: byte := 0x01
  const TRANSMITTED: byte := 0x04

  datatype Management = Management(pools: Pools, slots: seq<Pointer>, state: map<Pointer, byte>) {

    predicate Sized() {
      pools.big.size > 0 && pools.small.size > 0
    }

    /** The buffers the table names. */
    ghost function Used(): set<Pointer> {
      set i | 0 <= i < |slots| && slots[i] != NULL :: slots[i]
    }

    /** The table names every buffer handed out but the `lost` ones, and each of them once. */
    ghost predicate Keeps(lost: set<Pointer>) {
      && pools.Partitioned(Used() + lost) && Used() * lost == {}
      && (forall i, j | 0 <= i < j < |slots| && slots[i] != NULL :: slots[i] != slots[j])
      && (forall b | b in Used() :: b in state)
    }

    /** None is lost. */
    ghost predicate Mirror() {
      Keeps({})
    }

    /** There is a slot for every block. */
    predicate EnoughSlots() {
      |slots| >= pools.big.count + pools.small.count
    }

    /** What `remove` asks of a buffer before it frees it. */
    predicate Unused(b: Pointer, sent: set<Pointer>) {
      b in state && (state[b] == INVALID || (state[b] == TRANSMITTED && b in sent))
    }

    // ---------------------------------------------------------------- operations

    function FirstEmpty(i: nat): (r: nat)
      requires i <= |slots|
      ensures i <= r <= |slots|
      ensures r < |slots| ==> slots[r] == NULL
      ensures forall k | i <= k < r :: slots[k] != NULL
      decreases |slots| - i
    {
      if i < |slots| && slots[i] != NULL then FirstEmpty(i + 1) else i
    }

    function Insert(b: Pointer): (Management, bool) {
      var i := FirstEmpty(0);
      if i < |slots| then (this.(slots := slots[i := b]), true) else (this, false)
    }

    function Remove(i: nat, sent: set<Pointer>): (r: (Management, bool))
      requires Sized() && i < |slots|
      ensures r.0.Sized() && |r.0.slots| == |slots|
    {
      if Unused(slots[i], sent) then
        (this.(pools := pools.Release(slots[i]), slots := slots[i := NULL]), true)
      else (this, false)
    }

    /** One turn of the sweep. */
    function SweepAt(i: nat, sent: set<Pointer>): (m: Management)
      requires Sized() && i < |slots|
      ensures m.Sized() && |m.slots| == |slots|
    {
      if slots[i] != NULL then Remove(i, sent).0 else this
    }

    function SweepFrom(i: nat, sent: set<Pointer>): (m: Management)
      requires Sized() && i <= |slots|
      ensures m.Sized() && |m.slots| == |slots|
      decreases |slots| - i
    {
      if i == |slots| then this else SweepAt(i, sent).SweepFrom(i + 1, sent)
    }

    /** `freeAllUnused`. */
    function Sweep(sent: set<Pointer>): (m: Management)
      requires Sized()
      ensures m.Sized() && |m.slots| == |slots|
    {
      SweepFrom(0, sent)
    }

    /** The body of `createInstance`; the fresh buffer is in the writing state. */
    function Allocate(size: nat): (Management, Pointer) {
      var (p, r) := pools.Alloc(size);
      if r == NULL then (this.(pools := p), NULL)
      else (this.(pools := p, state := state[r := WRITING]), r)
    }

    function Record(b: Pointer): Management {
      if b != NULL then Insert(b).0 else this
    }

    /** `createInstance` with its advice: sweep, allocate, record. */
    function Create(size: nat, sent: set<Pointer>): (Management, Pointer)
      requires Sized()
    {
      var (m, r) := Sweep(sent).Allocate(size);
      (m.Record(r), r)
    }

    function SetState(b: Pointer, s: byte): Management {
      this.(state := state[b := s])
    }

    /** `send` takes only a buffer in the writing state. */
    function Send(b: Pointer): (Management, bool) {
      if b in state && state[b] == WRITING then (SetState(b, TRANSMITTED), true) else (this, false)
    }

    /** `requestSendBuffer`; `prepared` is the state in which the layers leave the buffer. */
    function Request(size: nat, sent: set<Pointer>, prepared: byte): (Management, Pointer)
      requires Sized()
    {
      var (m, r) := Create(size, sent);
      if r == NULL then (m, NULL)
      else
        var m' := m.SetState(r, prepared);
        if prepared != WRITING then (m', NULL) else (m', r)
    }
  }

  // ---------------------------------------------------------------- removing

  /** Clearing a slot takes its buffer off the table. */
  lemma ClearNames(m: Management, m': Management, i: nat)
    requires i < |m.slots| && m.slots[i] != NULL && m'.slots == m.slots[i := NULL]
    requires forall j, k | 0 <= j < k < |m.slots| && m.slots[j] != NULL :: m.slots[j] != m.slots[k]
    ensures m'.Used() == m.Used() - {m.slots[i]}
    ensures forall j, k | 0 <= j < k < |m'.slots| && m'.slots[j] != NULL :: m'.slots[j] != m'.slots[k]
  {
    forall a | a in m.Used() && a != m.slots[i]
      ensures a in m'.Used()
    {
      var k :| 0 <= k < |m.slots| && m.slots[k] == a;
      assert m'.slots[k] == a;
    }
  }

  lemma RemoveKeeps(m: Management, lost: set<Pointer>, i: nat, sent: set<Pointer>)
    requires m.Keeps(lost) && i < |m.slots| && m.slots[i] != NULL && m.Unused(m.slots[i], sent)
    ensures var (m', ok) := m.Remove(i, sent);
            ok && m'.Keeps(lost) && m'.Used() == m.Used() - {m.slots[i]} && m'.pools.Blocks() == m.pools.Blocks()
  {
    var b := m.slots[i];
    var m' := m.Remove(i, sent).0;
    assert b in m.Used();
    PoolsReleaseKeeps(m.pools, m.Used() + lost, b, b);
    ClearNames(m, m', i);
    assert m'.Used() + lost == m.Used() + lost - {b};
  }

  /** The buffers that the slots from `i` on name and a sweep frees. */
  ghost function Doomed(m: Management, i: nat, sent: set<Pointer>): set<Pointer> {
    set k | i <= k < |m.slots| && m.slots[k] != NULL && m.Unused(m.slots[k], sent) :: m.slots[k]
  }

  /** One slot more or less to look at. */
  lemma DoomedNext(m: Management, lost: set<Pointer>, i: nat, sent: set<Pointer>)
    requires m.Keeps(lost) && i < |m.slots|
    ensures var b := m.slots[i];
            if b != NULL && m.Unused(b, sent) then
              Doomed(m, i, sent) == Doomed(m, i + 1, sent) + {b} && b !in Doomed(m, i + 1, sent)
            else Doomed(m, i, sent) == Doomed(m, i + 1, sent)
  {
  }

  lemma DoomedSame(m: Management, m': Management, i: nat, sent: set<Pointer>)
    requires |m'.slots| == |m.slots| && m'.state == m.state
    requires forall k | i <= k < |m.slots| :: m'.slots[k] == m.slots[k]
    ensures Doomed(m', i, sent) == Doomed(m, i, sent)
  {
    forall b
      ensures m'.Unused(b, sent) == m.Unused(b, sent)
    {
    }
  }

  lemma SweepAtKeeps(m: Management, lost: set<Pointer>, i: nat, sent: set<Pointer>)
    requires m.Keeps(lost) && i < |m.slots|
    ensures var m' := m.SweepAt(i, sent);
            && m'.Keeps(lost) && m'.state == m.state && m'.pools.Blocks() == m.pools.Blocks()
            && m'.Used() == m.Used() - (Doomed(m, i, sent) - Doomed(m, i + 1, sent))
            && Doomed(m', i + 1, sent) == Doomed(m, i + 1, sent)
  {
    var b := m.slots[i];
    var m' := m.SweepAt(i, sent);
    DoomedNext(m, lost, i, sent);
    DoomedSame(m, m', i + 1, sent);
    if b != NULL && m.Unused(b, sent) {
      RemoveKeeps(m, lost, i, sent);
      assert Doomed(m, i, sent) - Doomed(m, i + 1, sent) == {b};
    } else {
      assert m' == m;
      assert Doomed(m, i, sent) - Doomed(m, i + 1, sent) == {};
    }
  }

  lemma {:induction false} SweepFromKeeps(m: Management, lost: set<Pointer>, i: nat, sent: set<Pointer>)
    requires m.Keeps(lost) && i <= |m.slots|
    ensures var m' := m.SweepFrom(i, sent);
            && m'.Keeps(lost) && m'.state == m.state && m'.pools.Blocks() == m.pools.Blocks()
            && m'.Used() == m.Used() - Doomed(m, i, sent)
    decreases |m.slots| - i
  {
    if i < |m.slots| {
      SweepAtKeeps(m, lost, i, sent);
      SweepFromKeeps(m.SweepAt(i, sent), lost, i + 1, sent);
      assert Doomed(m, i + 1, sent) <= Doomed(m, i, sent);
    } else {
      assert Doomed(m, i, sent) == {};
    }
  }

  /** A sweep frees exactly the invalid buffers and those transmitted and sent, and what the
      table names otherwise stays held. */
  lemma SweepFreesExactlyTheUnused(m: Management, lost: set<Pointer>, sent: set<Pointer>)
    requires m.Keeps(lost)
    ensures var m' := m.Sweep(sent);
            && m'.Keeps(lost) && m'.state == m.state && m'.pools.Blocks() == m.pools.Blocks()
            && forall b :: b in m'.Used() <==>
                 b in m.Used() && !(b in m.state && (m.state[b] == 0x00 || (m.state[b] == 0x04 && b in sent)))
  {
    SweepFromKeeps(m, lost, 0, sent);
    forall b | b in m.Used()
      ensures b in Doomed(m, 0, sent) <==> m.Unused(b, sent)
    {
      var k :| 0 <= k < |m.slots| && m.slots[k] == b;
      assert m.Unused(b, sent) ==> b in Doomed(m, 0, sent);
    }
  }

  lemma SweptIsClean(m: Management, lost: set<Pointer>, m1: Management, sent: set<Pointer>)
    requires m1.Keeps(lost) && m1.state == m.state
    requires forall b | b in m1.Used() :: !m.Unused(b, sent)
    ensures m1.Sweep(sent).Used() == m1.Used()
  {
    SweepFreesExactlyTheUnused(m1, lost, sent);
    assert forall b :: m1.Unused(b, sent) == m.Unused(b, sent);
  }

  /** A sweep finds nothing more to free. */
  lemma SweepLeavesNothing(m: Management, lost: set<Pointer>, sent: set<Pointer>)
    requires m.Keeps(lost)
    ensures m.Sweep(sent).Sweep(sent).Used() == m.Sweep(sent).Used()
  {
    var m1 := m.Sweep(sent);
    SweepFreesExactlyTheUnused(m, lost, sent);
    SweptIsClean(m, lost, m1, sent);
  }

  lemma {:induction false} SweepKeepsCounts(m: Management, i: nat, sent: set<Pointer>)
    requires m.Sized() && i <= |m.slots|
    ensures var m' := m.SweepFrom(i, sent);
            m'.pools.big.count == m.pools.big.count && m'.pools.small.count == m.pools.small.count
    decreases |m.slots| - i
  {
    if i < |m.slots| {
      SweepKeepsCounts(m.SweepAt(i, sent), i + 1, sent);
    }
  }

  // ---------------------------------------------------------------- creating

  ghost predicate HasEmptySlot(m: Management) {
    NULL in m.slots
  }

  /** The block that a creation loses: it was handed out while the table was full. */
  ghost function LostBy(m: Management, r: Pointer): set<Pointer> {
    if r != NULL && !HasEmptySlot(m) then {r} else {}
  }

  /** What the table names afterwards. */
  ghost function NamedBy(m: Management, r: Pointer): set<Pointer> {
    if r != NULL && HasEmptySlot(m) then m.Used() + {r} else m.Used()
  }

  lemma RecordNames(m: Management, r: Pointer)
    ensures m.Record(r).Used() == NamedBy(m, r)
    ensures |m.Record(r).slots| == |m.slots|
  {
    var i := m.FirstEmpty(0);
    var m' := m.Record(r);
    if r != NULL && i < |m.slots| {
      assert m'.slots[i] == r;
      forall a | a in m.Used()
        ensures a in m'.Used()
      {
        var k :| 0 <= k < |m.slots| && m.slots[k] == a;
        assert m'.slots[k] == a;
      }
      assert m'.Used() == m.Used() + {r};
    }
  }

  /** Allocating and recording: success exactly when the request fits the largest free block,
      with a block that nobody held.  It is named if there is an empty slot, and lost if not. */
  lemma AllocateAndRecord(m: Management, lost: set<Pointer>, size: nat)
    requires m.Keeps(lost)
    ensures var (m1, r) := m.Allocate(size);
            var m' := m1.Record(r);
            && m'.Keeps(lost + LostBy(m, r)) && m'.Used() == NamedBy(m, r)
            && m'.pools.Blocks() == m.pools.Blocks()
            && (r != NULL <==> m.pools.MaxFreeBlockSize() > 0 && size <= m.pools.MaxFreeBlockSize())
            && (r == NULL ==> m' == m)
            && (r != NULL ==> r !in m.Used() + lost && size <= m.pools.SizeOf(r) && m'.state == m.state[r := WRITING])
  {
    PoolsAllocKeeps(m.pools, m.Used() + lost, size);
    var (m1, r) := m.Allocate(size);
    RecordNames(m1, r);
    assert m1.slots == m.slots && m1.Used() == m.Used();
    assert NamedBy(m1, r) == NamedBy(m, r);
    if r != NULL {
      assert NamedBy(m, r) + (lost + LostBy(m, r)) == m.Used() + lost + {r};
    } else {
      assert lost + LostBy(m, r) == lost;
    }
  }

  /** Creating a buffer: the sweep first, then the allocation. */
  lemma CreateKeeps(m: Management, lost: set<Pointer>, size: nat, sent: set<Pointer>)
    requires m.Keeps(lost)
    ensures var (m', r) := m.Create(size, sent);
            var m1 := m.Sweep(sent);
            && m'.Keeps(lost + LostBy(m1, r)) && m'.Used() == NamedBy(m1, r)
            && m'.pools.Blocks() == m.pools.Blocks()
            && (r != NULL <==> m1.pools.MaxFreeBlockSize() > 0 && size <= m1.pools.MaxFreeBlockSize())
            && (r == NULL ==> m'.state == m.state)
            && (r != NULL ==> r !in m1.Used() + lost && size <= m1.pools.SizeOf(r)
                              && m'.state == m.state[r := WRITING])
  {
    SweepFreesExactlyTheUnused(m, lost, sent);
    AllocateAndRecord(m.Sweep(sent), lost, size);
  }

  /** Recording a fresh block keeps the mirror exactly when a slot was empty; otherwise the
      block is lost. */
  lemma RecordKeepsIff(m: Management, size: nat, m1: Management, r: Pointer)
    requires m.Mirror() && m.Allocate(size) == (m1, r) && r != NULL
    ensures m1.Record(r).Mirror() <==> HasEmptySlot(m)
  {
    AllocateAndRecord(m, {}, size);
    if !HasEmptySlot(m) {
      PoolsAllocKeeps(m.pools, m.Used() + {}, size);
      NotAMirror(m1.Record(r), m.Used() + {}, r);
    }
  }

  lemma NotAMirror(m: Management, live: set<Pointer>, r: Pointer)
    requires m.Used() == live && m.pools.Partitioned(live + {r}) && r !in live && r in m.pools.Blocks()
    ensures !m.Mirror()
  {
    StillFree(m.pools, live, r);
    assert m.Used() + {} == live;
  }

  /** A held block missing from the table: the pools are not partitioned by the table. */
  lemma StillFree(q: Pools, live: set<Pointer>, r: Pointer)
    requires q.Partitioned(live + {r}) && r !in live && r in q.Blocks()
    ensures !q.Partitioned(live)
  {
    if r in q.small.Blocks() {
      assert r in (live + {r}) * q.small.Blocks();
      assert r !in q.small.free && r !in live * q.small.Blocks();
    } else {
      assert r in (live + {r}) * q.big.Blocks();
      assert r !in q.big.free && r !in live * q.big.Blocks();
    }
  }

  // ---------------------------------------------------------------- slots and blocks

  /** With a slot for every block, an unheld block means an empty slot. */
  lemma SlotIsLeft(m: Management, r: Pointer)
    requires m.Mirror() && m.EnoughSlots() && r in m.pools.Blocks() && r !in m.Used()
    ensures HasEmptySlot(m)
  {
    if !HasEmptySlot(m) {
      DistinctCount(m.slots);
      assert Entries(m.slots) == m.Used();
      BlocksBound(m.pools);
      ProperSubset(m.Used(), m.pools.Blocks(), r);
    }
  }

  lemma ProperSubset(a: set<Pointer>, b: set<Pointer>, r: Pointer)
    requires a <= b && r in b && r !in a
    ensures |a| < |b|
  {
    SubsetSize(a + {r}, b);
  }

  lemma BlocksBound(p: Pools)
    requires p.big.size > 0 && p.small.size > 0
    ensures |p.Blocks()| <= p.big.count + p.small.count
  {
    BlockCount(p.big);
    BlockCount(p.small);
    assert p.Blocks() == p.big.Blocks() + (p.small.Blocks() - p.big.Blocks());
    SubsetSize(p.small.Blocks() - p.big.Blocks(), p.small.Blocks());
  }

  /** So a creation loses nothing then. */
  lemma NothingLostWithEnoughSlots(m: Management, size: nat, sent: set<Pointer>)
    requires m.Mirror() && m.EnoughSlots()
    ensures LostBy(m.Sweep(sent), m.Create(size, sent).1) == {}
  {
    var m1 := m.Sweep(sent);
    SweepFreesExactlyTheUnused(m, {}, sent);
    SweepKeepsCounts(m, 0, sent);
    PoolsAllocKeeps(m1.pools, m1.Used() + {}, size);
    var r := m.Create(size, sent).1;
    if r != NULL {
      SlotIsLeft(m1, r);
    }
  }

  // ---------------------------------------------------------------- runs

  /** What sockets, layers and the network interface do to the management memory. */
  datatype Op =
    | RequestOp(size: nat, sent: set<Pointer>, prepared: byte)
    | SetStateOp(b: Pointer, s: byte)
    | SendOp(b: Pointer)
    | SweepOp(sent: set<Pointer>)

  function Apply(m: Management, op: Op): (m': Management)
    requires m.Sized()
    ensures m'.Sized()
  {
    match op
    case RequestOp(size, sent, prepared) => m.Request(size, sent, prepared).0
    case SetStateOp(b, s) => m.SetState(b, s)
    case SendOp(b) => m.Send(b).0
    case SweepOp(sent) => m.Sweep(sent)
  }

  function Run(m: Management, ops: seq<Op>): Management
    requires m.Sized()
    decreases |ops|
  {
    if ops == [] then m else Run(Apply(m, ops[0]), ops[1..])
  }

  /** The block that one operation loses. */
  ghost function LostIn(m: Management, op: Op): set<Pointer>
    requires m.Sized()
  {
    if op.RequestOp? then LostBy(m.Sweep(op.sent), m.Create(op.size, op.sent).1) else {}
  }

  /** The blocks lost after a run, when `lost` were before. */
  ghost function Lost(m: Management, lost: set<Pointer>, ops: seq<Op>): set<Pointer>
    requires m.Sized()
    decreases |ops|
  {
    if ops == [] then lost else Lost(Apply(m, ops[0]), lost + LostIn(m, ops[0]), ops[1..])
  }

  lemma ApplyKeeps(m: Management, lost: set<Pointer>, op: Op)
    requires m.Keeps(lost)
    ensures Apply(m, op).Keeps(lost + LostIn(m, op))
    ensures Apply(m, op).pools.Blocks() == m.pools.Blocks()
  {
    match op
    case RequestOp(size, sent, prepared) =>
      CreateKeeps(m, lost, size, sent);
      var (m1, r) := m.Create(size, sent);
      assert m1.SetState(r, prepared).Used() == m1.Used();
    case SetStateOp(b, s) =>
      assert m.SetState(b, s).Used() == m.Used() && lost + {} == lost;
    case SendOp(b) =>
      assert m.SetState(b, TRANSMITTED).Used() == m.Used() && lost + {} == lost;
    case SweepOp(sent) =>
      SweepFreesExactlyTheUnused(m, lost, sent);
      assert lost + {} == lost;
  }

  /** Over any run, whatever the sizes of table and pool, the blocks handed out are those in
      the slots, each named once, and those requested while the table was full. */
  lemma {:induction false} RunKeeps(m: Management, lost: set<Pointer>, ops: seq<Op>)
    requires m.Keeps(lost)
    ensures Run(m, ops).Keeps(Lost(m, lost, ops)) && Run(m, ops).pools.Blocks() == m.pools.Blocks()
    ensures lost <= Lost(m, lost, ops)
    decreases |ops|
  {
    if ops != [] {
      ApplyKeeps(m, lost, ops[0]);
      RunKeeps(Apply(m, ops[0]), lost + LostIn(m, ops[0]), ops[1..]);
    }
  }

  lemma EnoughSlotsStay(m: Management, op: Op)
    requires m.Sized() && m.EnoughSlots()
    ensures Apply(m, op).EnoughSlots()
  {
    match op
    case RequestOp(size, sent, prepared) =>
      SweepKeepsCounts(m, 0, sent);
      var (m1, r) := m.Sweep(sent).Allocate(size);
      RecordNames(m1, r);
    case SweepOp(sent) => SweepKeepsCounts(m, 0, sent);
    case _ =>
  }

  /** With a slot for every block nothing is ever lost. */
  lemma {:induction false} RunMirrors(m: Management, ops: seq<Op>)
    requires m.Mirror() && m.EnoughSlots()
    ensures Run(m, ops).Mirror() && Lost(m, {}, ops) == {}
    decreases |ops|
  {
    if ops != [] {
      if ops[0].RequestOp? {
        NothingLostWithEnoughSlots(m, ops[0].size, ops[0].sent);
      }
      assert {} + LostIn(m, ops[0]) == {};
      ApplyKeeps(m, {}, ops[0]);
      EnoughSlotsStay(m, ops[0]);
      RunMirrors(Apply(m, ops[0]), ops[1..]);
    }
  }

  /** The empty table over fresh pools. */
  lemma FreshIsMirror(p: Pools, slots: seq<Pointer>)
    requires p.Partitioned({}) && forall i | 0 <= i < |slots| :: slots[i] == NULL
    ensures Management(p, slots, map[]).Mirror() && Management(p, slots, map[]).Used() == {}
  {
    assert Management(p, slots, map[]).Used() == {};
    assert Management(p, slots, map[]).Used() + {} == {};
  }

  // ---------------------------------------------------------------- too few slots

  /** `n` requests whose buffers are left in the writing state. */
  function Requests(size: nat, n: nat): seq<Op> {
    if n == 0 then [] else [RequestOp(size, {}, WRITING)] + Requests(size, n - 1)
  }

  ghost predicate AllWriting(m: Management) {
    forall b | b in m.Used() :: b in m.state && m.state[b] == WRITING
  }

  /** A sweep finds nothing to free among buffers that are being written. */
  lemma {:induction false} SweepIdles(m: Management, i: nat)
    requires m.Sized() && AllWriting(m) && i <= |m.slots|
    ensures m.SweepFrom(i, {}) == m
    decreases |m.slots| - i
  {
    if i < |m.slots| {
      if m.slots[i] != NULL {
        assert m.slots[i] in m.Used();
      }
      assert m.SweepAt(i, {}) == m;
      SweepIdles(m, i + 1);
    }
  }

  lemma {:induction false} EntriesSize(s: seq<Pointer>)
    ensures |Entries(s)| <= |s|
    decreases |s|
  {
    if s != [] {
      var t, last := s[..|s| - 1], s[|s| - 1];
      EntriesSize(t);
      assert s == t + [last];
      assert Entries(s) == Entries(t) + {last};
    }
  }

  /** As long as the table names all held blocks and is smaller than the pool, small requests
      succeed. */
  lemma SmallRequestFits(m: Management, size: nat)
    requires m.Mirror() && !m.EnoughSlots() && size <= m.pools.small.size
    ensures m.pools.MaxFreeBlockSize() > 0 && size <= m.pools.MaxFreeBlockSize()
  {
    var p, live := m.pools, m.Used() + {};
    assert live == m.Used();
    if p.big.free == [] && p.small.free == [] {
      RoomForHeld(p.big, live * p.big.Blocks());
      RoomForHeld(p.small, live * p.small.Blocks());
      HeldInOnePool(p, live);
      EntriesSize(m.slots);
      SubsetSize(m.Used(), Entries(m.slots));
    }
  }

  lemma HeldInOnePool(p: Pools, live: set<Pointer>)
    requires p.Partitioned(live)
    ensures |live| == |live * p.big.Blocks()| + |live * p.small.Blocks()|
  {
    var a, b := live * p.big.Blocks(), live * p.small.Blocks();
    forall r | r in a
      ensures r !in b
    {
      PoolsApart(p, r);
    }
    assert a * b == {} && live == a + b;
  }

  /** How many slots are empty. */
  ghost function EmptySlots(m: Management): nat {
    multiset(m.slots)[NULL]
  }

  lemma FillStep(m: Management, size: nat)
    requires m.Mirror() && AllWriting(m) && !m.EnoughSlots() && size <= m.pools.small.size
    ensures var m' := Apply(m, RequestOp(size, {}, WRITING));
            if HasEmptySlot(m) then
              && m'.Mirror() && AllWriting(m') && !m'.EnoughSlots() && m'.pools.small.size == m.pools.small.size
              && EmptySlots(m') == EmptySlots(m) - 1
            else !m'.Mirror()
  {
    SweepIdles(m, 0);
    SmallRequestFits(m, size);
    AllocateAndRecord(m, {}, size);
    var (m1, r) := m.Allocate(size);
    RecordKeepsIff(m, size, m1, r);
    var m2 := m1.Record(r);
    RecordNames(m1, r);
    assert m2.state[r := WRITING] == m2.state;
    assert Apply(m, RequestOp(size, {}, WRITING)) == m2;
    if HasEmptySlot(m) {
      assert m1.slots == m.slots && m2.slots == m.slots[m1.FirstEmpty(0) := r];
    }
  }

  lemma {:induction false} FillLoses(m: Management, size: nat, n: nat)
    requires m.Mirror() && AllWriting(m) && !m.EnoughSlots() && size <= m.pools.small.size
    requires n == EmptySlots(m)
    ensures !Run(m, Requests(size, n + 1)).Mirror()
    decreases n
  {
    FillStep(m, size);
    var ops, op := Requests(size, n + 1), RequestOp(size, {}, WRITING);
    assert ops[0] == op && ops[1..] == Requests(size, n);
    if n > 0 {
      FillLoses(Apply(m, op), size, n - 1);
    }
  }

  lemma {:induction false} AllEmpty(slots: seq<Pointer>)
    requires forall i | 0 <= i < |slots| :: slots[i] == NULL
    ensures multiset(slots)[NULL] == |slots|
    decreases |slots|
  {
    if slots != [] {
      var t := slots[..|slots| - 1];
      AllEmpty(t);
      assert slots == t + [NULL];
    }
  }

  /** A fresh pool with fewer slots than blocks: one small request more than there are slots
      loses a buffer. */
  lemma FullTableLoses(p: Pools, slots: seq<Pointer>, size: nat)
    requires p.Partitioned({}) && forall i | 0 <= i < |slots| :: slots[i] == NULL
    requires |slots| < p.big.count + p.small.count && size <= p.small.size
    ensures !Run(Management(p, slots, map[]), Requests(size, |slots| + 1)).Mirror()
  {
    FreshIsMirror(p, slots);
    AllEmpty(slots);
    FillLoses(Management(p, slots, map[]), size, |slots|);
  }

  /** The static size of the table decides over all runs: no run ever loses a buffer if and
      only if there is a slot for every block. */
  lemma EnoughSlotsIff(p: Pools, slots: seq<Pointer>)
    requires p.Partitioned({}) && forall i | 0 <= i < |slots| :: slots[i] == NULL
    ensures (forall ops :: Run(Management(p, slots, map[]), ops).Mirror())
            <==> |slots| >= p.big.count + p.small.count
  {
    var m := Management(p, slots, map[]);
    FreshIsMirror(p, slots);
    if m.EnoughSlots() {
      forall ops
        ensures Run(m, ops).Mirror()
      {
        RunMirrors(m, ops);
      }
    } else {
      FullTableLoses(p, slots, p.small.size);
    }
  }

  /** The default configuration: without generic memory the management pool has the 4 big and 4
      small blocks of the common pool, and the table the 4 + 2 slots of the management memory.
      The seventh request loses a buffer. */
  lemma LostBlock(base1: Pointer, base2: Pointer)
    requires 0 < base1 && base1 + 4 * 1514 < base2
    ensures var m := Management(FreshPools(base1, base2, 1514, 4, 64, 4), seq(4 + 2, _ => NULL), map[]);
            m.Mirror() && !Run(m, Requests(64, 7)).Mirror()
  {
    var p := FreshPools(base1, base2, 1514, 4, 64, 4);
    var slots := seq(4 + 2, _ => NULL);
    FreshIsPartitioned(base1, 1514, 4);
    FreshIsPartitioned(base2, 64, 4);
    assert {} * p.big.Blocks() == {} && {} * p.small.Blocks() == {};
    FreshIsMirror(p, slots);
    FullTableLoses(p, slots, 64);
  }

  // ---------------------------------------------------------------- buffers in flight

  /** The operation leaves buffer `b` alone: nobody changes its state, and the interface has
      not finished with it. */
  predicate Spares(op: Op, b: Pointer) {
    match op
    case RequestOp(_, sent, _) => b !in sent
    case SetStateOp(c, _) => c != b
    case SendOp(_) => true
    case SweepOp(sent) => b !in sent
  }

  ghost predicate InFlight(m: Management, b: Pointer) {
    b in m.Used() && b in m.state && m.state[b] == TRANSMITTED
  }

  lemma InFlightStep(m: Management, lost: set<Pointer>, op: Op, b: Pointer)
    requires m.Keeps(lost) && Spares(op, b) && InFlight(m, b)
    ensures InFlight(Apply(m, op), b)
    ensures op.RequestOp? ==> m.Request(op.size, op.sent, op.prepared).1 != b
  {
    match op
    case RequestOp(size, sent, prepared) =>
      SweepFreesExactlyTheUnused(m, lost, sent);
      CreateKeeps(m, lost, size, sent);
      var (m1, r) := m.Create(size, sent);
      assert b in m.Sweep(sent).Used() && b in m1.Used() && b != r;
      assert m1.SetState(r, prepared).Used() == m1.Used();
    case SetStateOp(c, s) =>
      assert m.SetState(c, s).Used() == m.Used();
    case SendOp(c) =>
      assert m.SetState(c, TRANSMITTED).Used() == m.Used();
    case SweepOp(sent) =>
      SweepFreesExactlyTheUnused(m, lost, sent);
  }

  /** A buffer under transmission is neither freed nor handed out again, in any run, until the
      interface has finished with it. */
  lemma {:induction false} InFlightIsUntouched(m: Management, lost: set<Pointer>, ops: seq<Op>, b: Pointer)
    requires m.Keeps(lost) && forall i | 0 <= i < |ops| :: Spares(ops[i], b)
    requires InFlight(m, b)
    ensures InFlight(Run(m, ops), b)
    ensures Run(m, ops).Keeps(Lost(m, lost, ops))
    decreases |ops|
  {
    if ops != [] {
      InFlightStep(m, lost, ops[0], b);
      ApplyKeeps(m, lost, ops[0]);
      InFlightIsUntouched(Apply(m, ops[0]), lost + LostIn(m, ops[0]), ops[1..], b);
    }
  }

  /** The life of a buffer: it is handed out in the writing state, sent once, and from then on in
      flight; a second `send` is refused.  Nothing else changes. */
  lemma SentOnce(m: Management, lost: set<Pointer>, size: nat, sent: set<Pointer>)
    requires m.Keeps(lost) && m.Create(size, sent).1 != NULL && HasEmptySlot(m.Sweep(sent))
    ensures var (m1, b) := m.Request(size, sent, WRITING);
            var (m2, ok) := m1.Send(b);
            && b == m.Create(size, sent).1 && m1.state[b] == WRITING
            && ok && InFlight(m2, b) && m2.pools == m1.pools && m2.slots == m1.slots
            && (forall c | c in m1.state && c != b :: c in m2.state && m2.state[c] == m1.state[c])
            && m2.Send(b) == (m2, false)
  {
    CreateKeeps(m, lost, size, sent);
    var (m1, b) := m.Request(size, sent, WRITING);
    var m' := m.Create(size, sent).0;
    assert b in m'.Used() && m1.Used() == m'.Used();
    var m2 := m1.Send(b).0;
    assert m2.Used() == m1.Used();
  }

  /** A buffer that is not being written, such as one that is in flight, is not sent. */
  lemma SendRefusedIff(m: Management, b: Pointer)
    requires b in m.state
    ensures !m.Send(b).1 <==> m.state[b] != WRITING
    ensures !m.Send(b).1 ==> m.Send(b).0 == m
    ensures m.Send(b).1 ==> m.Send(b).0.state == m.state[b := TRANSMITTED]
  {
  }

  /** A buffer whose preparation failed is not handed to the caller, and a later sweep takes it
      back exactly when the table names it and the layers left it invalid, or transmitted and
      sent. */
  lemma FailedPreparation(m: Management, lost: set<Pointer>, size: nat, sent: set<Pointer>, prepared: byte,
                          sent': set<Pointer>)
    requires m.Keeps(lost) && prepared != WRITING && m.Create(size, sent).1 != NULL
    ensures var b := m.Create(size, sent).1;
            var (m', r) := m.Request(size, sent, prepared);
            && r == NULL && m'.Keeps(lost + LostBy(m.Sweep(sent), b))
            && (b in m'.Used() <==> HasEmptySlot(m.Sweep(sent)))
            && (b in m'.Sweep(sent').Used() <==>
                  b in m'.Used() && prepared != INVALID && !(prepared == TRANSMITTED && b in sent'))
  {
    CreateKeeps(m, lost, size, sent);
    var (m1, b) := m.Create(size, sent);
    var m' := m1.SetState(b, prepared);
    assert m'.Used() == m1.Used();
    SweepFreesExactlyTheUnused(m', lost + LostBy(m.Sweep(sent), b), sent');
  }

  // ---------------------------------------------------------------- the class

  /** `state` stands for the state fields of the send buffers, which live inside the pool. */
  class SharedMemory {
    const mempool: BasicMempool
    const allocatedMemories: array<Pointer>
    var state: map<Pointer, byte>
    /** Blocks handed out while the table was full. */
    ghost var lost: set<Pointer>

    ghost predicate Valid()
      reads this, allocatedMemories, mempool, mempool.big, mempool.small
      reads mempool.big.freelist, mempool.small.freelist
    {
      && mempool.Valid()
      && allocatedMemories != mempool.big.freelist && allocatedMemories != mempool.small.freelist
      && State().Keeps(lost)
    }

    ghost function State(): Management
      reads this, allocatedMemories, mempool, mempool.big, mempool.small
      reads mempool.big.freelist, mempool.small.freelist
      requires mempool.Valid()
    {
      Management(mempool.State(), allocatedMemories[..], state)
    }

    constructor (pools: BasicMempool, slots: nat)
      requires pools.Valid() && pools.State().Partitioned({})
      ensures Valid() && State() == Management(pools.State(), seq(slots, _ => NULL), map[])
      ensures mempool == pools && fresh(allocatedMemories) && lost == {}
    {
      mempool := pools;
      allocatedMemories := new Pointer[slots](_ => NULL);
      state, lost := map[], {};
      new;
      assert allocatedMemories[..] == seq(slots, _ => NULL);
      FreshIsMirror(pools.State(), allocatedMemories[..]);
    }

    /** The first empty slot, in a loop. */
    method Insert(data: Pointer) returns (ok: bool)
      requires mempool.Valid()
      requires allocatedMemories != mempool.big.freelist && allocatedMemories != mempool.small.freelist
      modifies allocatedMemories
      ensures (State(), ok) == old(State()).Insert(data)
    {
      ghost var m := State();
      for i := 0 to allocatedMemories.Length
        invariant State() == m && m.FirstEmpty(i) == m.FirstEmpty(0)
      {
        if allocatedMemories[i] == NULL {
          allocatedMemories[i] := data;
          return true;
        }
      }
      return false;
    }

    method Remove(index: nat, sent: set<Pointer>) returns (ok: bool)
      requires Valid() && index < allocatedMemories.Length && allocatedMemories[index] != NULL
      modifies allocatedMemories, mempool.big`head, mempool.small`head, mempool.big.freelist, mempool.small.freelist
      modifies mempool.big`overflow, mempool.small`overflow
      ensures Valid() && (State(), ok) == old(State()).Remove(index, sent)
      ensures mempool.Overflow() == old(mempool.Overflow())
    {
      var buffer := allocatedMemories[index];
      ghost var m := State();
      assert buffer == m.slots[index] && buffer in m.Used();
      var s := state[buffer];
      if s == INVALID || (s == TRANSMITTED && buffer in sent) {
        RemoveKeeps(m, lost, index, sent);
        assert Holds(m.pools, m.Used() + lost, buffer, buffer);
        HeldHasRoom(m.pools, m.Used() + lost, buffer);
        mempool.Free(buffer);
        allocatedMemories[index] := NULL;
        return true;
      }
      return false;
    }

    /** The next used entry from `from` on. */
    method GetNext(from: nat) returns (index: nat, buffer: Pointer)
      ensures buffer == NULL ==>
                index == from && forall k | from <= k < allocatedMemories.Length :: allocatedMemories[k] == NULL
      ensures buffer != NULL ==>
                && from <= index < allocatedMemories.Length && buffer == allocatedMemories[index]
                && forall k | from <= k < index :: allocatedMemories[k] == NULL
    {
      var i := from;
      while i < allocatedMemories.Length
        invariant forall k | from <= k < i && k < allocatedMemories.Length :: allocatedMemories[k] == NULL
        invariant from <= i
      {
        if allocatedMemories[i] != NULL {
          return i, allocatedMemories[i];
        }
        i := i + 1;
      }
      return from, NULL;
    }

    method FreeAllUnused(sent: set<Pointer>)
      requires Valid()
      modifies allocatedMemories, mempool.big`head, mempool.small`head, mempool.big.freelist, mempool.small.freelist
      modifies mempool.big`overflow, mempool.small`overflow
      ensures Valid() && State() == old(State()).Sweep(sent)
      ensures mempool.Overflow() == old(mempool.Overflow())
    {
      for i := 0 to allocatedMemories.Length
        invariant Valid() && mempool.Overflow() == old(mempool.Overflow())
        invariant State().SweepFrom(i, sent) == old(State()).Sweep(sent)
      {
        if allocatedMemories[i] != NULL {
          var _ := Remove(i, sent);
        }
      }
    }

    /** The advice after `createInstance`. */
    method RecordBuffer(r: Pointer)
      requires mempool.Valid()
      requires allocatedMemories != mempool.big.freelist && allocatedMemories != mempool.small.freelist
      modifies allocatedMemories
      ensures State() == old(State()).Record(r)
    {
      if r != NULL {
        var _ := Insert(r);
      }
    }

    /** The body of `createInstance`. */
    method AllocateBuffer(size: nat) returns (r: Pointer)
      requires Valid()
      modifies this`state, mempool.big`head, mempool.small`head
      ensures mempool.Valid() && (State(), r) == old(State()).Allocate(size)
    {
      r := mempool.Alloc(size);
      if r != NULL {
        state := state[r := WRITING];
      }
    }

    /** `createInstance` with the advice before and after it.  With a full table the buffer is
        handed out all the same. */
    method CreateInstance(size: nat, sent: set<Pointer>) returns (r: Pointer)
      requires Valid()
      modifies this`state, this`lost, allocatedMemories
      modifies mempool.big`head, mempool.small`head, mempool.big.freelist, mempool.small.freelist
      modifies mempool.big`overflow, mempool.small`overflow
      ensures Valid() && (State(), r) == old(State()).Create(size, sent)
      ensures lost == old(lost) + LostBy(old(State()).Sweep(sent), r)
      ensures mempool.Overflow() == old(mempool.Overflow())
    {
      FreeAllUnused(sent);
      r := AllocateAndInsert(size);
    }

    method AllocateAndInsert(size: nat) returns (r: Pointer)
      requires Valid()
      modifies this`state, this`lost, allocatedMemories, mempool.big`head, mempool.small`head
      ensures Valid() && r == old(State()).Allocate(size).1 && State() == old(State()).Allocate(size).0.Record(r)
      ensures lost == old(lost) + LostBy(old(State()), r) && mempool.Overflow() == old(mempool.Overflow())
    {
      ghost var m := State();
      AllocateAndRecord(m, lost, size);
      r := AllocateBuffer(size);
      RecordBuffer(r);
      lost := lost + LostBy(m, r);
    }
  }
}
