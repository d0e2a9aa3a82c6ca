/** The buffer memory: a free list over blocks of one size, and two of them side by side.

    `Pool` and `Pools` are the states on which the laws are stated; the classes below them
    work on a free-list array and a head pointer and are proved to do the same. */
module Mempool {

  import opened Basics

  // ---------------------------------------------------------------- arithmetic

  lemma DivMod(x: nat, n: nat) returns (q: nat)
    requires n > 0
    ensures x == q * n + x % n
  {
    q := x / n;
  }

  lemma ProductGrows(a: int, b: int, n: nat)
    requires a < b
    ensures a * n + n <= b * n
  {
    assert (b - a - 1) * n >= 0;
  }

  lemma FactorBelow(a: int, b: int, n: nat)
    requires a * n < b * n
    ensures a < b
  {
    if b < a {
      ProductGrows(b, a, n);
    }
  }

  lemma ModIs(x: nat, q: nat, r: nat, n: nat)
    requires x == q * n + r && r < n
    ensures x % n == r
  {
    var k := DivMod(x, n);
    if k < q {
      ProductGrows(k, q, n);
    } else if k > q {
      ProductGrows(q, k, n);
    }
  }

  // ---------------------------------------------------------------- one pool

  /** `count` blocks of `size` bytes from `base` on; `free` is the used part of the free list,
      its last entry on top. */
  datatype Pool = Pool(base: Pointer, size: nat, count: nat, free: seq<Pointer>) {

    function BlockAt(i: nat): Pointer {
      base + i * size
    }

    ghost function Blocks(): set<Pointer> {
      set i: nat | i < count :: BlockAt(i)
    }

    function End(): Pointer {
      base + count * size
    }

    /** `mem` is the address of a byte of the pool. */
    predicate Inside(mem: Pointer) {
      base <= mem < End()
    }

    function Alloc(): (Pool, Pointer) {
      if free == [] then (this, NULL)
      else (this.(free := free[..|free| - 1]), free[|free| - 1])
    }

    /** The next lower block boundary. */
    function BlockOf(mem: Pointer): Pointer
      requires size > 0 && base <= mem
    {
      mem - (mem - base) % size
    }

    predicate Accepts(mem: Pointer) {
      !(mem < base || mem > End())
    }

    function Release(mem: Pointer): (Pool, bool)
      requires size > 0
    {
      if !Accepts(mem) then (this, false)
      else (this.(free := free + [BlockOf(mem)]), true)
    }

    /** The free-list array has no room for another entry. */
    predicate Overflows(mem: Pointer) {
      Accepts(mem) && |free| >= count
    }

    predicate HasSpace() {
      free != []
    }

    /** The blocks handed out, `live`, and the entries of the free list make up the pool. */
    ghost predicate Partitioned(live: set<Pointer>) {
      && base > 0 && size > 0
      && (forall i, j | 0 <= i < j < |free| :: free[i] != free[j])
      && (forall a | a in free :: a in Blocks() && a !in live)
      && (forall a | a in live :: a in Blocks())
      && (forall a | a in Blocks() :: a in free || a in live)
    }
  }

  function FreshPool(base: Pointer, size: nat, count: nat): Pool {
    Pool(base, size, count, seq(count, i requires 0 <= i < count => base + i * size))
  }

  lemma FreshIsPartitioned(base: Pointer, size: nat, count: nat)
    requires base > 0 && size > 0
    ensures FreshPool(base, size, count).Partitioned({})
  {
    var p := FreshPool(base, size, count);
    forall i, j | 0 <= i < j < count
      ensures p.free[i] != p.free[j]
    {
      ProductGrows(i, j, size);
    }
    forall a | a in p.free
      ensures a in p.Blocks()
    {
      var i :| 0 <= i < count && p.free[i] == a;
      assert a == p.BlockAt(i);
    }
    forall a | a in p.Blocks()
      ensures a in p.free
    {
      var i: nat :| i < count && a == p.BlockAt(i);
      assert p.free[i] == a;
    }
  }

  lemma NoNullEntry(base: Pointer, size: nat, count: nat)
    requires base > 0
    ensures NULL !in FreshPool(base, size, count).free
  {
    forall i | 0 <= i < count
      ensures FreshPool(base, size, count).free[i] != NULL
    {
      assert i * size >= 0;
    }
  }

  // ---------------------------------------------------------------- geometry

  /** Every byte of the pool belongs to the block that rounding down finds. */
  lemma RoundingFindsBlock(p: Pool, mem: Pointer)
    requires p.size > 0 && p.Inside(mem)
    ensures p.BlockOf(mem) in p.Blocks()
    ensures p.BlockOf(mem) <= mem < p.BlockOf(mem) + p.size
  {
    var i := DivMod(mem - p.base, p.size);
    assert i * p.size < p.count * p.size;
    FactorBelow(i, p.count, p.size);
    assert p.BlockOf(mem) == p.BlockAt(i);
  }

  /** Rounding an interior address finds its own block. */
  lemma InteriorRoundsToBlock(p: Pool, b: Pointer, mem: Pointer)
    requires p.size > 0 && b in p.Blocks() && b <= mem < b + p.size
    ensures p.Inside(mem) && p.BlockOf(mem) == b
  {
    var i: nat :| i < p.count && b == p.BlockAt(i);
    ProductGrows(i, p.count, p.size);
    assert i * p.size >= 0;
    ModIs(mem - p.base, i, mem - b, p.size);
  }

  /** Blocks do not overlap. */
  lemma BlocksApart(p: Pool, a: Pointer, b: Pointer)
    requires p.size > 0 && a in p.Blocks() && b in p.Blocks() && a < b
    ensures a + p.size <= b
  {
    var i: nat :| i < p.count && a == p.BlockAt(i);
    var j: nat :| j < p.count && b == p.BlockAt(j);
    FactorBelow(i, j, p.size);
    ProductGrows(i, j, p.size);
  }

  /** There are as many blocks as the pool was declared with. */
  lemma {:induction false} BlockCount(p: Pool)
    requires p.size > 0
    ensures |p.Blocks()| == p.count
    decreases p.count
  {
    if p.count == 0 {
      assert p.Blocks() == {};
    } else {
      var q := p.(count := p.count - 1);
      BlockCount(q);
      var last := p.BlockAt(p.count - 1);
      forall i: nat | i < q.count
        ensures p.BlockAt(i) == q.BlockAt(i) != last
      {
        ProductGrows(i, p.count - 1, p.size);
      }
      assert p.Blocks() == q.Blocks() + {last} by {
        assert q.Blocks() <= p.Blocks() by {
          forall a | a in q.Blocks() ensures a in p.Blocks() {
            var i: nat :| i < q.count && a == q.BlockAt(i);
            assert a == p.BlockAt(i);
          }
        }
        forall a | a in p.Blocks() ensures a in q.Blocks() || a == last {
          var i: nat :| i < p.count && a == p.BlockAt(i);
          if i < q.count {
            assert a == q.BlockAt(i);
          }
        }
      }
      assert last !in q.Blocks();
    }
  }

  // ---------------------------------------------------------------- one pool: laws

  /** Allocation takes a block that nobody holds; it fails exactly when all are held. */
  lemma AllocKeeps(p: Pool, live: set<Pointer>)
    requires p.Partitioned(live)
    ensures var (p', r) := p.Alloc();
            if r == NULL then p' == p && live == p.Blocks()
            else r in p.Blocks() && r !in live && p'.Partitioned(live + {r})
    ensures p.Alloc().1 == NULL <==> !p.HasSpace()
  {
    var (p', r) := p.Alloc();
    assert p'.Blocks() == p.Blocks() by {
      assert forall i: nat | i < p.count :: p.BlockAt(i) == p'.BlockAt(i);
    }
    if p.free == [] {
      assert live == p.Blocks();
    } else {
      assert r in p.free;
      BlocksAboveBase(p, r);
      forall a | a in p.Blocks()
        ensures a in p'.free || a in live + {r}
      {
        if a in p.free {
          var i :| 0 <= i < |p.free| && p.free[i] == a;
        }
      }
    }
  }

  lemma BlocksAboveBase(p: Pool, b: Pointer)
    requires b in p.Blocks()
    ensures b >= p.base
  {
    var i: nat :| i < p.count && b == p.BlockAt(i);
    assert i * p.size >= 0;
  }

  /** Freeing any address inside a held block returns that block. */
  lemma ReleaseKeeps(p: Pool, live: set<Pointer>, b: Pointer, mem: Pointer)
    requires p.Partitioned(live) && b in live && b <= mem < b + p.size
    ensures var (p', ok) := p.Release(mem);
            ok && p'.free == p.free + [b] && p'.Partitioned(live - {b})
  {
    InteriorRoundsToBlock(p, b, mem);
    var p' := p.Release(mem).0;
    assert p'.Blocks() == p.Blocks() by {
      assert forall i: nat | i < p.count :: p.BlockAt(i) == p'.BlockAt(i);
    }
    forall a | a in p'.free
      ensures a in p'.Blocks() && a !in live - {b}
    {
      if a != b {
        assert a in p.free;
      }
    }
    forall a | a in p'.Blocks()
      ensures a in p'.free || a in live - {b}
    {
      if a in p.free {
        var i :| 0 <= i < |p.free| && p.free[i] == a;
        assert p'.free[i] == a;
      } else if a == b {
        assert p'.free[|p.free|] == a;
      }
    }
  }

  /** A held block leaves room in the free-list array. */
  lemma RoomForHeld(p: Pool, live: set<Pointer>)
    requires p.Partitioned(live)
    ensures |p.free| + |live| == p.count
  {
    BlockCount(p);
    DistinctCount(p.free);
    assert Entries(p.free) + live == p.Blocks();
    assert Entries(p.free) * live == {};
  }

  ghost function Entries(s: seq<Pointer>): set<Pointer> {
    set a | a in s
  }

  lemma {:induction false} DistinctCount(s: seq<Pointer>)
    requires forall i, j | 0 <= i < j < |s| :: s[i] != s[j]
    ensures |Entries(s)| == |s|
    decreases |s|
  {
    if s != [] {
      var t, last := s[..|s| - 1], s[|s| - 1];
      DistinctCount(t);
      assert s == t + [last];
      assert Entries(s) == Entries(t) + {last};
    }
  }

  /** `mem` lies inside a held block. */
  ghost predicate InHeld(p: Pool, live: set<Pointer>, mem: Pointer) {
    exists b :: b in live && b <= mem < b + p.size
  }

  /** The contract of `free`, exactly: an accepted address leaves a pool partitioned by some
      held set if and only if it lies inside a held block.  Otherwise the block was free
      already, or the address is the one past the end, which the upper bound test lets
      through. */
  lemma ReleaseKeepsIff(p: Pool, live: set<Pointer>, mem: Pointer)
    requires p.Partitioned(live) && p.Accepts(mem)
    ensures (exists live' :: p.Release(mem).0.Partitioned(live')) <==> InHeld(p, live, mem)
  {
    if b :| b in live && b <= mem < b + p.size {
      ReleaseKeeps(p, live, b, mem);
    }
    if live' :| p.Release(mem).0.Partitioned(live') {
      ReleasedWasHeld(p, live, mem, live');
    }
  }

  lemma ReleasedWasHeld(p: Pool, live: set<Pointer>, mem: Pointer, live': set<Pointer>)
    requires p.Partitioned(live) && p.Accepts(mem) && p.Release(mem).0.Partitioned(live')
    ensures InHeld(p, live, mem)
  {
    var p', b := p.Release(mem).0, p.BlockOf(mem);
    SameBlocks(p, p');
    assert p'.free[|p.free|] == b && b in p'.free;
    forall i | 0 <= i < |p.free|
      ensures p.free[i] != b
    {
      assert p'.free[i] == p.free[i];
    }
    if mem == p.End() {
      EndIsNoBlock(p);
    } else {
      RoundingFindsBlock(p, mem);
    }
    assert b in live && b <= mem < b + p.size;
  }

  /** The upper bound test lets one address too many through. */
  lemma AcceptsIsInsideIff(p: Pool, mem: Pointer)
    ensures (p.Accepts(mem) <==> p.Inside(mem)) <==> mem != p.End()
  {
    assert p.count * p.size >= 0;
  }

  /** The address past the end is a block boundary, but not a block. */
  lemma EndIsNoBlock(p: Pool)
    requires p.size > 0
    ensures p.BlockOf(p.End()) == p.End() && p.End() !in p.Blocks()
  {
    ModIs(p.End() - p.base, p.count, 0, p.size);
    if p.End() in p.Blocks() {
      var i: nat :| i < p.count && p.End() == p.BlockAt(i);
      ProductGrows(i, p.count, p.size);
    }
  }

  lemma SameBlocks(p: Pool, q: Pool)
    requires q.base == p.base && q.size == p.size && q.count == p.count
    ensures p.Blocks() == q.Blocks()
  {
    assert forall i: nat | i < p.count :: p.BlockAt(i) == q.BlockAt(i);
  }

  /** Freeing the address past the end of a pool with a held block makes the next allocation
      return memory that is not part of the pool. */
  lemma PastTheEndIsHandedOut(p: Pool, live: set<Pointer>)
    requires p.Partitioned(live) && live != {}
    ensures p.Accepts(p.End()) && !p.Overflows(p.End())
    ensures p.Release(p.End()).0.Alloc().1 == p.End() && p.End() !in p.Blocks()
  {
    EndIsNoBlock(p);
    RoomForHeld(p, live);
    assert p.count * p.size >= 0;
    assert p.Release(p.End()).0.free[|p.free|] == p.End();
  }

  /** With no held block every accepted address is written past the end of the free list. */
  lemma ReleaseOverflowsIff(p: Pool, live: set<Pointer>, mem: Pointer)
    requires p.Partitioned(live) && p.Accepts(mem)
    ensures p.Overflows(mem) <==> live == {}
  {
    RoomForHeld(p, live);
  }

  // ---------------------------------------------------------------- two pools

  datatype Pools = Pools(big: Pool, small: Pool) {

    function MaxFreeBlockSize(): nat {
      if big.HasSpace() then big.size
      else if small.HasSpace() then small.size
      else 0
    }

    /** A small request tries the small blocks first. */
    function Alloc(size: nat): (Pools, Pointer) {
      if size <= small.size && small.HasSpace() then
        var (s, r) := small.Alloc();
        (this.(small := s), r)
      else if size <= big.size then
        var (b, r) := big.Alloc();
        (this.(big := b), r)
      else (this, NULL)
    }

    predicate Overflows(chunk: Pointer) {
      if small.Accepts(chunk) then small.Overflows(chunk) else big.Overflows(chunk)
    }

    function Release(chunk: Pointer): Pools
      requires big.size > 0 && small.size > 0
    {
      if small.Release(chunk).1 then this.(small := small.Release(chunk).0)
      else this.(big := big.Release(chunk).0)
    }

    /** The bytes of the block that starts at `b`. */
    ghost function SizeOf(b: Pointer): nat {
      if b in small.Blocks() then small.size else big.size
    }

    ghost function Blocks(): set<Pointer> {
      big.Blocks() + small.Blocks()
    }

    /** Free-list entries and held blocks partition both pools.  The free list and the head
        pointer of the big pool lie between the two. */
    ghost predicate Partitioned(live: set<Pointer>) {
      && small.size <= big.size && big.End() < small.base
      && big.Partitioned(live * big.Blocks())
      && small.Partitioned(live * small.Blocks())
      && live <= Blocks()
    }
  }

  /** The constructor sorts the two sizes it is given; the big pool comes first in memory. */
  function FreshPools(base1: Pointer, base2: Pointer, size1: nat, count1: nat, size2: nat, count2: nat): Pools {
    if size1 >= size2 then Pools(FreshPool(base1, size1, count1), FreshPool(base2, size2, count2))
    else Pools(FreshPool(base1, size2, count2), FreshPool(base2, size1, count1))
  }

  lemma PoolsApart(p: Pools, b: Pointer)
    requires p.big.End() < p.small.base && p.big.size > 0 && p.small.size > 0
    ensures b in p.big.Blocks() ==> p.big.base <= b && b + p.big.size <= p.big.End() && b !in p.small.Blocks()
    ensures b in p.small.Blocks() ==> p.small.base <= b && b !in p.big.Blocks()
  {
    if b in p.big.Blocks() {
      InteriorRoundsToBlock(p.big, b, b);
      InteriorRoundsToBlock(p.big, b, b + p.big.size - 1);
    }
    if b in p.small.Blocks() {
      BlocksAboveBase(p.small, b);
    }
  }

  /** Held blocks never share a byte, whichever pool they come from. */
  lemma HeldBlocksAreDisjoint(p: Pools, live: set<Pointer>, a: Pointer, b: Pointer)
    requires p.Partitioned(live) && a in live && b in live && a < b
    ensures a + p.SizeOf(a) <= b
  {
    PoolsApart(p, a);
    PoolsApart(p, b);
    if b in p.small.Blocks() {
      if a in p.small.Blocks() {
        BlocksApart(p.small, a, b);
      }
    } else {
      BlocksApart(p.big, a, b);
    }
  }

  /** A small request that finds a free small block gets one, and spares the big pool; any other
      success is served by the big pool, and spares the small one. */
  ghost predicate Served(p: Pools, size: nat, p': Pools, r: Pointer) {
    if size <= p.small.size && p.small.free != [] then r in p.small.Blocks() && p'.big == p.big
    else r != NULL ==> r in p.big.Blocks() && p'.small == p.small
  }

  /** A request succeeds exactly when it is at most the largest free block size; the block is
      large enough, was held by nobody, and joins the held ones. */
  lemma PoolsAllocKeeps(p: Pools, live: set<Pointer>, size: nat)
    requires p.Partitioned(live)
    ensures var (p', r) := p.Alloc(size);
            && (r != NULL <==> p.MaxFreeBlockSize() > 0 && size <= p.MaxFreeBlockSize())
            && p'.Blocks() == p.Blocks() && Served(p, size, p', r)
            && if r == NULL then p' == p
               else r in p.Blocks() && r !in live && size <= p.SizeOf(r) && p'.Partitioned(live + {r})
  {
    var (p', r) := p.Alloc(size);
    SameBlocks(p.small, p'.small);
    SameBlocks(p.big, p'.big);
    PoolsApart(p, r);
    AllocKeeps(p.small, live * p.small.Blocks());
    AllocKeeps(p.big, live * p.big.Blocks());
    if r != NULL {
      var live' := live + {r};
      if r in p.small.Blocks() {
        assert live' * p.small.Blocks() == live * p.small.Blocks() + {r};
        assert live' * p.big.Blocks() == live * p.big.Blocks();
      } else {
        assert live' * p.big.Blocks() == live * p.big.Blocks() + {r};
        assert live' * p.small.Blocks() == live * p.small.Blocks();
      }
    }
  }

  /** Freeing any address inside a held block returns that block to the pool it came from. */
  lemma PoolsReleaseKeeps(p: Pools, live: set<Pointer>, b: Pointer, chunk: Pointer)
    requires p.Partitioned(live) && b in live && b <= chunk < b + p.SizeOf(b)
    ensures var p' := p.Release(chunk);
            && p'.Partitioned(live - {b}) && p'.Blocks() == p.Blocks()
            && (if b in p.small.Blocks() then p' == p.(small := p'.small) && p'.small.free == p.small.free + [b]
                else p' == p.(big := p'.big) && p'.big.free == p.big.free + [b])
  {
    var p' := p.Release(chunk);
    SameBlocks(p.small, p'.small);
    SameBlocks(p.big, p'.big);
    PoolsApart(p, b);
    var live' := live - {b};
    if b in p.small.Blocks() {
      ReleaseKeeps(p.small, live * p.small.Blocks(), b, chunk);
      assert live' * p.small.Blocks() == live * p.small.Blocks() - {b};
      assert live' * p.big.Blocks() == live * p.big.Blocks();
    } else {
      assert chunk < p.small.base;
      ReleaseKeeps(p.big, live * p.big.Blocks(), b, chunk);
      assert live' * p.big.Blocks() == live * p.big.Blocks() - {b};
      assert live' * p.small.Blocks() == live * p.small.Blocks();
    }
  }

  /** The block freed last is the next one handed out, and that undoes the release. */
  lemma ReleaseThenAlloc(p: Pools, live: set<Pointer>, b: Pointer, chunk: Pointer, size: nat)
    requires p.Partitioned(live) && b in live && b <= chunk < b + p.SizeOf(b)
    requires if b in p.small.Blocks() then size <= p.small.size else p.small.size < size <= p.big.size
    ensures p.Release(chunk).Alloc(size) == (p, b)
  {
    PoolsReleaseKeeps(p, live, b, chunk);
    var p' := p.Release(chunk);
    if b in p.small.Blocks() {
      assert p'.small.free[..|p.small.free|] == p.small.free;
      assert p'.small.Alloc() == (p.small, b);
    } else {
      assert p'.big.free[..|p.big.free|] == p.big.free;
      assert p'.big.Alloc() == (p.big, b);
    }
  }

  // ---------------------------------------------------------------- runs

  datatype Op = AllocOp(size: nat) | FreeOp(chunk: Pointer)

  /** The held block that contains the byte at `chunk`, if there is one. */
  ghost predicate Holds(p: Pools, live: set<Pointer>, b: Pointer, chunk: Pointer) {
    b in live && b <= chunk < b + p.SizeOf(b)
  }

  ghost predicate Held(p: Pools, live: set<Pointer>, chunk: Pointer) {
    exists b :: Holds(p, live, b, chunk)
  }

  /** Callers free only what they hold (no double free). */
  ghost predicate Allowed(p: Pools, live: set<Pointer>, run: seq<Op>)
    requires p.big.size > 0 && p.small.size > 0
    decreases |run|
  {
    run == [] ||
    match run[0]
    case AllocOp(n) =>
      var (p', r) := p.Alloc(n);
      Allowed(p', if r == NULL then live else live + {r}, run[1..])
    case FreeOp(chunk) =>
      Held(p, live, chunk) &&
      forall b | Holds(p, live, b, chunk) :: Allowed(p.Release(chunk), live - {b}, run[1..])
  }

  /** The pools and the held blocks after a run. */
  ghost function Final(p: Pools, live: set<Pointer>, run: seq<Op>): (Pools, set<Pointer>)
    requires p.big.size > 0 && p.small.size > 0 && Allowed(p, live, run)
    decreases |run|
  {
    if run == [] then (p, live)
    else
      match run[0]
      case AllocOp(n) =>
        var (p', r) := p.Alloc(n);
        Final(p', if r == NULL then live else live + {r}, run[1..])
      case FreeOp(chunk) =>
        var b :| Holds(p, live, b, chunk);
        Final(p.Release(chunk), live - {b}, run[1..])
  }

  /** Over any run without double frees the pools stay partitioned, and no block appears or
      disappears. */
  lemma {:induction false} RunKeeps(p: Pools, live: set<Pointer>, run: seq<Op>)
    requires p.Partitioned(live) && Allowed(p, live, run)
    ensures var (p', live') := Final(p, live, run);
            p'.Partitioned(live') && p'.Blocks() == p.Blocks()
    decreases |run|
  {
    if run != [] {
      match run[0]
      case AllocOp(n) =>
        PoolsAllocKeeps(p, live, n);
        var (p', r) := p.Alloc(n);
        RunKeeps(p', if r == NULL then live else live + {r}, run[1..]);
      case FreeOp(chunk) =>
        forall b | Holds(p, live, b, chunk)
          ensures var (p', live') := Final(p.Release(chunk), live - {b}, run[1..]);
                  p'.Partitioned(live') && p'.Blocks() == p.Blocks()
        {
          PoolsReleaseKeeps(p, live, b, chunk);
          RunKeeps(p.Release(chunk), live - {b}, run[1..]);
        }
    }
  }

  /** Only small requests, and never more blocks held than the small pool has. */
  ghost predicate Modest(p: Pools, live: set<Pointer>, run: seq<Op>)
    requires p.big.size > 0 && p.small.size > 0 && Allowed(p, live, run)
    decreases |run|
  {
    run == [] ||
    match run[0]
    case AllocOp(n) =>
      var (p', r) := p.Alloc(n);
      n <= p.small.size && |live| < p.small.count && Modest(p', if r == NULL then live else live + {r}, run[1..])
    case FreeOp(chunk) =>
      forall b | Holds(p, live, b, chunk) :: Modest(p.Release(chunk), live - {b}, run[1..])
  }

  /** Such a run leaves the big pool untouched for requests that need it. */
  lemma {:induction false} ModestRunSparesBig(p: Pools, live: set<Pointer>, run: seq<Op>)
    requires p.Partitioned(live) && live <= p.small.Blocks() && Allowed(p, live, run) && Modest(p, live, run)
    ensures Final(p, live, run).0.big == p.big
    decreases |run|
  {
    if run != [] {
      match run[0]
      case AllocOp(n) =>
        assert live * p.small.Blocks() == live;
        RoomForHeld(p.small, live);
        PoolsAllocKeeps(p, live, n);
        var (p', r) := p.Alloc(n);
        SameBlocks(p.small, p'.small);
        BlocksAboveBase(p.small, r);
        ModestRunSparesBig(p', live + {r}, run[1..]);
      case FreeOp(chunk) =>
        forall b | Holds(p, live, b, chunk)
          ensures Final(p.Release(chunk), live - {b}, run[1..]).0.big == p.big
        {
          PoolsReleaseKeeps(p, live, b, chunk);
          SameBlocks(p.small, p.Release(chunk).small);
          ModestRunSparesBig(p.Release(chunk), live - {b}, run[1..]);
        }
    }
  }

  /** The same from the freshly constructed pools. */
  lemma FreshRunKeeps(base1: Pointer, base2: Pointer, size1: nat, count1: nat, size2: nat, count2: nat, run: seq<Op>)
    requires base1 > 0 && size1 > 0 && size2 > 0
    requires FreshPools(base1, base2, size1, count1, size2, count2).big.End() < base2
    requires Allowed(FreshPools(base1, base2, size1, count1, size2, count2), {}, run)
    ensures var (p, live) := Final(FreshPools(base1, base2, size1, count1, size2, count2), {}, run);
            p.Partitioned(live)
  {
    var p := FreshPools(base1, base2, size1, count1, size2, count2);
    FreshIsPartitioned(p.big.base, p.big.size, p.big.count);
    FreshIsPartitioned(p.small.base, p.small.size, p.small.count);
    assert {} * p.big.Blocks() == {} && {} * p.small.Blocks() == {};
    RunKeeps(p, {}, run);
  }

  lemma BlockIsInPool(p: Pool, mem: Pointer)
    requires p.size > 0 && p.Accepts(mem)
    ensures p.BlockOf(mem) == mem - (mem - p.base) % p.size && p.base <= p.BlockOf(mem)
  {
    var _ := DivMod(mem - p.base, p.size);
  }

  // ---------------------------------------------------------------- the classes

  /** The free list is an array with a head pointer to its last used entry. */
  class SingleMempool {
    const pool: Pointer
    const blockSize: nat
    const count: nat
    const freelist: array<Pointer>
    var head: int
    /** An entry was written past the end of the free list; nothing can be said from here on. */
    var overflow: bool

    ghost predicate Valid()
      reads this, freelist
    {
      && pool > 0 && blockSize > 0 && freelist.Length == count && -1 <= head < count
      && NULL !in freelist[.. head + 1]
    }

    ghost function State(): Pool
      reads this, freelist
      requires Valid()
    {
      Pool(pool, blockSize, count, freelist[.. head + 1])
    }

    constructor (pool: Pointer, blockSize: nat, count: nat)
      requires pool > 0 && blockSize > 0
      ensures Valid() && State() == FreshPool(pool, blockSize, count) && fresh(freelist) && !overflow
    {
      this.pool, this.blockSize, this.count := pool, blockSize, count;
      this.freelist := new Pointer[count];
      this.head, this.overflow := count - 1, false;
      new;
      ghost var entries := FreshPool(pool, blockSize, count).free;
      for i := 0 to count
        invariant head == count - 1 && !overflow && freelist[..i] == entries[..i]
      {
        freelist[i] := pool + i * blockSize;
        assert freelist[..i + 1] == freelist[..i] + [entries[i]] == entries[..i + 1];
      }
      assert freelist[..head + 1] == entries[..count] == entries;
      NoNullEntry(pool, blockSize, count);
    }

    method Alloc() returns (mem: Pointer)
      requires Valid()
      modifies this`head
      ensures Valid() && (State(), mem) == old(State()).Alloc()
    {
      if head < 0 {
        return NULL;
      }
      ghost var used := freelist[..head + 1];
      mem := freelist[head];
      head := head - 1;
      assert freelist[..head + 1] == used[..|used| - 1];
    }

    /** The original does not check that the free list has room for an accepted address. */
    method Free(mem: Pointer) returns (ok: bool)
      requires Valid()
      modifies this`head, this`overflow, freelist
      ensures Valid() && ok == old(State()).Accepts(mem)
      ensures overflow == (old(overflow) || old(State()).Overflows(mem))
      ensures State() == if old(State()).Overflows(mem) then old(State()) else old(State()).Release(mem).0
    {
      if mem < pool || mem > pool + count * blockSize {
        return false;
      }
      if head + 1 == count {
        overflow := true;
        return true;
      }
      BlockIsInPool(State(), mem);
      Push(mem - (mem - pool) % blockSize);
      return true;
    }

    /** `*++head = mem` */
    method Push(mem: Pointer)
      requires Valid() && head + 1 < count && mem != NULL
      modifies this`head, freelist
      ensures Valid() && State() == old(State()).(free := old(State()).free + [mem])
    {
      ghost var used := freelist[..head + 1];
      head := head + 1;
      freelist[head] := mem;
      assert freelist[..head + 1] == used + [mem];
    }

    method HasSpace() returns (has: bool)
      requires Valid()
      ensures has <==> State().HasSpace()
    {
      has := head >= 0;
    }
  }

  class BasicMempool {
    const big: SingleMempool
    const small: SingleMempool

    ghost predicate Valid()
      reads this, big, small, big.freelist, small.freelist
    {
      && big != small && big.freelist != small.freelist
      && big.Valid() && small.Valid()
      && small.blockSize <= big.blockSize
    }

    ghost function State(): Pools
      reads this, big, small, big.freelist, small.freelist
      requires Valid()
    {
      Pools(big.State(), small.State())
    }

    ghost predicate Overflow()
      reads big, small
    {
      big.overflow || small.overflow
    }

    /** The larger of the two sizes becomes the big pool, whichever is named first. */
    constructor (base1: Pointer, base2: Pointer, size1: nat, count1: nat, size2: nat, count2: nat)
      requires base1 > 0 && base2 > 0 && size1 > 0 && size2 > 0
      ensures Valid() && State() == FreshPools(base1, base2, size1, count1, size2, count2) && !Overflow()
    {
      var b, s;
      if size1 >= size2 {
        b := new SingleMempool(base1, size1, count1);
        s := new SingleMempool(base2, size2, count2);
      } else {
        b := new SingleMempool(base1, size2, count2);
        s := new SingleMempool(base2, size1, count1);
      }
      big, small := b, s;
    }

    method GetMaxFreeBlockSize() returns (size: nat)
      requires Valid()
      ensures size == State().MaxFreeBlockSize()
    {
      var has := big.HasSpace();
      if has {
        return big.blockSize;
      }
      has := small.HasSpace();
      if has {
        return small.blockSize;
      }
      return 0;
    }

    method Alloc(size: nat) returns (ptr: Pointer)
      requires Valid()
      modifies big`head, small`head
      ensures Valid() && (State(), ptr) == old(State()).Alloc(size)
    {
      ghost var before := State();
      if size <= small.blockSize {
        ptr := small.Alloc();
        assert before.small.HasSpace() ==> ptr in before.small.free;
        if ptr != NULL {
          assert State().big == before.big;
          return;
        }
      }
      if size <= big.blockSize {
        ptr := big.Alloc();
        return;
      }
      ptr := NULL;
    }

    method Free(chunk: Pointer)
      requires Valid()
      modifies big`head, small`head, big`overflow, small`overflow, big.freelist, small.freelist
      ensures Valid() && Overflow() == (old(Overflow()) || old(State()).Overflows(chunk))
      ensures State() == if old(State()).Overflows(chunk) then old(State()) else old(State()).Release(chunk)
    {
      var ok := small.Free(chunk);
      if !ok {
        var _ := big.Free(chunk);
      }
    }
  }

  /** Freeing what is held never writes past the end of a free list. */
  lemma HeldHasRoom(p: Pools, live: set<Pointer>, chunk: Pointer)
    requires p.Partitioned(live) && Held(p, live, chunk)
    ensures !p.Overflows(chunk)
  {
    var b :| Holds(p, live, b, chunk);
    PoolsApart(p, b);
    if b in p.small.Blocks() {
      InteriorRoundsToBlock(p.small, b, chunk);
      RoomForHeld(p.small, live * p.small.Blocks());
    } else {
      InteriorRoundsToBlock(p.big, b, chunk);
      RoomForHeld(p.big, live * p.big.Blocks());
    }
  }
}
