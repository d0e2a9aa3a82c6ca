/** The list of bound UDP sockets: a linked list with a head pointer, and the search for a
    free source port. */
module UdpDemux {
  import opened Basics

  const PORTS: int := 0x1_0000
  const UNUSED_PORT: int := 0
  const FIRST_DEFAULT: int := 1024

  type Port = uint16

  // ---------------------------------------------------------------- ports

  predicate IsDefault(p: int) {
    FIRST_DEFAULT <= p < PORTS
  }

  /** The 16-bit counter moves on and skips the well-known ports. */
  function NextPort(p: Port): (q: Port)
    ensures IsDefault(q)
  {
    var q := (p + 1) % PORTS;
    if q < FIRST_DEFAULT then FIRST_DEFAULT else q
  }

  /** The next port is the smallest greater one from 1024 on, and after the last one the first. */
  lemma NextPortIsSmallest(p: Port)
    ensures p < PORTS - 1 ==> NextPort(p) > p && forall r | IsDefault(r) && r > p :: NextPort(p) <= r
    ensures p == PORTS - 1 ==> forall r | IsDefault(r) :: NextPort(p) <= r
  {
  }

  /** How often the counter moves on from `p` until it reaches `q`. */
  function Steps(p: int, q: int): (n: int)
    requires IsDefault(p) && IsDefault(q)
    ensures 0 <= n < PORTS - FIRST_DEFAULT
    ensures n == 0 <==> p == q
  {
    if p <= q then q - p else q - p + (PORTS - FIRST_DEFAULT)
  }

  ghost predicate Taken(sockets: seq<UdpSocket>, p: int)
    reads sockets
  {
    exists i :: 0 <= i < |sockets| && sockets[i].sport == p
  }

  ghost predicate HasFreePort(sockets: seq<UdpSocket>)
    reads sockets
  {
    exists p :: IsDefault(p) && !Taken(sockets, p)
  }

  /** All ports that the counter meets from `start` until just before `p` are in use. */
  ghost predicate TakenBefore(sockets: seq<UdpSocket>, start: Port, p: Port)
    requires IsDefault(start) && IsDefault(p)
    reads sockets
  {
    forall q | IsDefault(q) && Steps(start, q) < Steps(start, p) :: Taken(sockets, q)
  }

  /** The counter meets `p` no later than `free`. */
  predicate OnTheWay(start: Port, p: Port, free: Port)
    requires IsDefault(start) && IsDefault(p) && IsDefault(free)
  {
    Steps(start, p) + Steps(p, free) == Steps(start, free)
  }

  /** From a port that is not `free` the counter moves on without passing `free`. */
  lemma MovedOn(start: Port, p: Port, free: Port)
    requires IsDefault(start) && IsDefault(p) && IsDefault(free) && p != free
    requires OnTheWay(start, p, free)
    ensures OnTheWay(start, NextPort(p), free)
    ensures Steps(NextPort(p), free) == Steps(p, free) - 1
    ensures Steps(start, NextPort(p)) == Steps(start, p) + 1
  {
  }

  lemma TakenMovesOn(sockets: seq<UdpSocket>, start: Port, p: Port, free: Port)
    requires IsDefault(start) && IsDefault(p) && IsDefault(free)
    requires Steps(start, NextPort(p)) == Steps(start, p) + 1
    requires TakenBefore(sockets, start, p) && Taken(sockets, p)
    ensures TakenBefore(sockets, start, NextPort(p))
  {
    forall q | IsDefault(q) && Steps(start, q) < Steps(start, NextPort(p))
      ensures Taken(sockets, q)
    {
      if Steps(start, q) == Steps(start, p) {
        assert q == p;
      }
    }
  }

  ghost function PortsUpTo(n: int): set<int>
    requires FIRST_DEFAULT <= n <= PORTS
  {
    set p | FIRST_DEFAULT <= p < n && IsDefault(p)
  }

  lemma {:induction false} PortsCount(n: int)
    requires FIRST_DEFAULT <= n <= PORTS
    ensures |PortsUpTo(n)| == n - FIRST_DEFAULT
    decreases n
  {
    if n == FIRST_DEFAULT {
      assert PortsUpTo(n) == {};
    } else {
      PortsCount(n - 1);
      assert PortsUpTo(n) == PortsUpTo(n - 1) + {n - 1};
    }
  }

  ghost function PortsOf(sockets: seq<UdpSocket>): set<int>
    reads sockets
  {
    set i | 0 <= i < |sockets| :: sockets[i].sport
  }

  lemma {:induction false} FewPorts(sockets: seq<UdpSocket>)
    ensures |PortsOf(sockets)| <= |sockets|
    decreases |sockets|
  {
    if sockets == [] {
      assert PortsOf(sockets) == {};
    } else {
      var rest := sockets[1..];
      FewPorts(rest);
      assert PortsOf(sockets) == {sockets[0].sport} + PortsOf(rest) by {
        assert sockets == [sockets[0]] + rest;
        forall p | p in PortsOf(sockets)
          ensures p == sockets[0].sport || p in PortsOf(rest)
        {
          var i :| 0 <= i < |sockets| && sockets[i].sport == p;
          if i > 0 {
            assert rest[i - 1].sport == p;
          }
        }
      }
    }
  }

  /** Fewer than 64512 sockets leave a port. */
  lemma FewSocketsLeaveAPort(sockets: seq<UdpSocket>)
    requires |sockets| < PORTS - FIRST_DEFAULT
    ensures HasFreePort(sockets)
  {
    if !HasFreePort(sockets) {
      forall p | p in PortsUpTo(PORTS)
        ensures p in PortsOf(sockets)
      {
        assert IsDefault(p) && Taken(sockets, p);
      }
      SubsetSize(PortsUpTo(PORTS), PortsOf(sockets));
      PortsCount(PORTS);
      FewPorts(sockets);
    }
  }

  // ---------------------------------------------------------------- the scan

  /** Where the scan for a free port stands: the port it tries, and the socket it looks at. */
  datatype Scan = Scan(port: Port, index: nat)

  function ScanStep(sockets: seq<UdpSocket>, c: Scan): Scan
    requires c.index < |sockets|
    reads sockets
  {
    if sockets[c.index].sport == c.port then Scan(NextPort(c.port), 0) else Scan(c.port, c.index + 1)
  }

  /** The scan after at most `n` turns of the loop, which ends behind the last socket. */
  function ScanAfter(sockets: seq<UdpSocket>, c: Scan, n: nat): Scan
    requires c.index <= |sockets|
    reads sockets
    decreases n
  {
    if n == 0 || c.index == |sockets| then c else ScanAfter(sockets, ScanStep(sockets, c), n - 1)
  }

  ghost predicate Ends(sockets: seq<UdpSocket>, c: Scan)
    requires c.index <= |sockets|
    reads sockets
  {
    exists n: nat :: ScanAfter(sockets, c, n).index == |sockets|
  }

  /** None of the sockets passed so far has the port that is tried. */
  ghost predicate Passed(sockets: seq<UdpSocket>, c: Scan)
    requires c.index <= |sockets|
    reads sockets
  {
    IsDefault(c.port) && forall k | 0 <= k < c.index :: sockets[k].sport != c.port
  }

  lemma StepPasses(sockets: seq<UdpSocket>, c: Scan)
    requires c.index < |sockets| && Passed(sockets, c)
    ensures ScanStep(sockets, c).index <= |sockets| && Passed(sockets, ScanStep(sockets, c))
    ensures ScanStep(sockets, c).index == |sockets| ==> !Taken(sockets, c.port)
  {
  }

  /** Without a free port the scan stays inside the list for ever. */
  lemma {:induction false} ScanNeverEnds(sockets: seq<UdpSocket>, c: Scan, n: nat)
    requires !HasFreePort(sockets) && c.index < |sockets| && Passed(sockets, c)
    ensures ScanAfter(sockets, c, n).index < |sockets|
    decreases n
  {
    if n > 0 {
      StepPasses(sockets, c);
      ScanNeverEnds(sockets, ScanStep(sockets, c), n - 1);
    }
  }

  /** With a free port every collision brings the counter closer to it. */
  lemma {:induction false} ScanEnds(sockets: seq<UdpSocket>, c: Scan, free: Port) returns (n: nat)
    requires c.index <= |sockets| && Passed(sockets, c) && IsDefault(free) && !Taken(sockets, free)
    ensures ScanAfter(sockets, c, n).index == |sockets|
    decreases Steps(c.port, free), |sockets| - c.index
  {
    n := 0;
    if c.index < |sockets| {
      StepPasses(sockets, c);
      if c.port != free {
        MovedOn(c.port, c.port, free);
      }
      n := ScanEnds(sockets, ScanStep(sockets, c), free);
      n := n + 1;
    }
  }

  /** The scan ends if and only if a port from 1024 on is free. */
  lemma ScanEndsIff(sockets: seq<UdpSocket>, start: Port)
    requires IsDefault(start)
    ensures Ends(sockets, Scan(start, 0)) <==> HasFreePort(sockets)
  {
    if free :| IsDefault(free) && !Taken(sockets, free) {
      var n := ScanEnds(sockets, Scan(start, 0), free);
    } else {
      assert Taken(sockets, start);
      forall n: nat
        ensures ScanAfter(sockets, Scan(start, 0), n).index < |sockets|
      {
        ScanNeverEnds(sockets, Scan(start, 0), n);
      }
    }
  }

  /** What the search keeps: it has not passed `free`, and every port it has passed is taken. */
  ghost predicate Searching(sockets: seq<UdpSocket>, start: Port, c: Scan, free: Port)
    requires IsDefault(start) && IsDefault(free) && c.index <= |sockets|
    reads sockets
  {
    Passed(sockets, c) && OnTheWay(start, c.port, free) && TakenBefore(sockets, start, c.port)
  }

  lemma SearchStep(sockets: seq<UdpSocket>, start: Port, c: Scan, free: Port)
    requires IsDefault(start) && IsDefault(free) && !Taken(sockets, free) && c.index < |sockets|
    requires Searching(sockets, start, c, free)
    ensures ScanStep(sockets, c).index <= |sockets|
    ensures Searching(sockets, start, ScanStep(sockets, c), free)
    ensures sockets[c.index].sport == c.port ==> Steps(NextPort(c.port), free) < Steps(c.port, free)
  {
    StepPasses(sockets, c);
    if sockets[c.index].sport == c.port {
      MovedOn(start, c.port, free);
      TakenMovesOn(sockets, start, c.port, free);
    }
  }

  lemma {:induction false} OneMoreTurn(sockets: seq<UdpSocket>, c: Scan, n: nat)
    requires c.index <= |sockets| && ScanAfter(sockets, c, n).index < |sockets|
    ensures ScanAfter(sockets, c, n + 1) == ScanStep(sockets, ScanAfter(sockets, c, n))
    decreases n
  {
    if n > 0 {
      OneMoreTurn(sockets, ScanStep(sockets, c), n - 1);
    }
  }

  // ---------------------------------------------------------------- the list

  class UdpSocket {
    var next: UdpSocket?
    var sport: Port

    constructor (sport: Port)
      ensures this.sport == sport && next == null
    {
      this.sport, next := sport, null;
    }
  }

  /** Every socket has a port, and no other socket has it. */
  ghost predicate OwnPorts(sockets: seq<UdpSocket>)
    reads sockets
  {
    && (forall i {:trigger sockets[i].sport} | 0 <= i < |sockets| :: sockets[i].sport != UNUSED_PORT)
    && (forall i, j {:trigger sockets[i].sport, sockets[j].sport} | 0 <= i < j < |sockets| ::
          sockets[i].sport != sockets[j].sport)
  }

  ghost predicate Distinct(sockets: seq<UdpSocket>) {
    forall i, j | 0 <= i < j < |sockets| :: sockets[i] != sockets[j]
  }

  /** `sockets` without its entry number `i + 1`. */
  ghost function CutAfter(sockets: seq<UdpSocket>, i: nat): (r: seq<UdpSocket>)
    requires i + 1 < |sockets|
    ensures |r| == |sockets| - 1
    ensures forall k | 0 <= k < |r| :: r[k] == if k <= i then sockets[k] else sockets[k + 1]
  {
    sockets[..i + 1] + sockets[i + 2 ..]
  }

  lemma CutKeeps(sockets: seq<UdpSocket>, i: nat)
    requires i + 1 < |sockets| && Distinct(sockets)
    ensures Distinct(CutAfter(sockets, i))
    ensures OwnPorts(sockets) ==> OwnPorts(CutAfter(sockets, i))
  {
  }

  ghost function Without(sockets: seq<UdpSocket>, s: UdpSocket): seq<UdpSocket> {
    if sockets == [] then []
    else if sockets[0] == s then sockets[1..]
    else [sockets[0]] + Without(sockets[1..], s)
  }

  lemma {:induction false} WithoutAt(sockets: seq<UdpSocket>, k: nat)
    requires k < |sockets| && Distinct(sockets)
    ensures Without(sockets, sockets[k]) == sockets[..k] + sockets[k + 1 ..]
    decreases k
  {
    if k > 0 {
      WithoutAt(sockets[1..], k - 1);
      assert sockets[1..][..k - 1] == sockets[1..k];
      assert [sockets[0]] + sockets[1..k] == sockets[..k];
    }
  }

  lemma {:induction false} WithoutAbsent(sockets: seq<UdpSocket>, s: UdpSocket)
    requires s !in sockets
    ensures Without(sockets, s) == sockets
    decreases |sockets|
  {
    if sockets != [] {
      WithoutAbsent(sockets[1..], s);
    }
  }

  class Demux {
    var lastDefaultPort: Port
    var headSocket: UdpSocket?
    /** The null head was dereferenced; nothing can be said from here on. */
    var fault: bool
    ghost var sockets: seq<UdpSocket>

    ghost function At(i: nat): UdpSocket?
      reads this
    {
      if i < |sockets| then sockets[i] else null
    }

    /** The links run through `sockets` and end: no cycle. */
    ghost predicate Linked()
      reads this, sockets
    {
      && headSocket == At(0)
      && Distinct(sockets)
      && forall i {:trigger sockets[i].next} | 0 <= i < |sockets| :: sockets[i].next == At(i + 1)
    }

    /** Every bound socket has a port of its own. */
    ghost predicate Valid()
      reads this, sockets
    {
      Linked() && OwnPorts(sockets)
    }

    constructor ()
      ensures Valid() && sockets == [] && !fault
    {
      lastDefaultPort, headSocket, sockets, fault := 0, null, [], false;
    }

    /** The scan restarts at the head after every collision.  It is `ScanAfter` some number of
        turns, and its answer is the first free port in the counter's order. */
    method GetFreePort() returns (port: Port, ghost turns: nat)
      requires Linked() && HasFreePort(sockets)
      modifies this`lastDefaultPort
      ensures port == lastDefaultPort && IsDefault(port) && !Taken(sockets, port)
      ensures TakenBefore(sockets, NextPort(old(lastDefaultPort)), port)
      ensures ScanAfter(sockets, Scan(NextPort(old(lastDefaultPort)), 0), turns) == Scan(port, |sockets|)
    {
      ghost var free :| IsDefault(free) && !Taken(sockets, free);
      lastDefaultPort := NextPort(lastDefaultPort);
      port, turns := ScanList(lastDefaultPort, free);
    }

    /** The loop, from the counter's new value on. */
    method ScanList(ghost start: Port, ghost free: Port) returns (port: Port, ghost turns: nat)
      requires Linked() && lastDefaultPort == start && IsDefault(start)
      requires IsDefault(free) && !Taken(sockets, free)
      modifies this`lastDefaultPort
      ensures port == lastDefaultPort && IsDefault(port) && !Taken(sockets, port)
      ensures TakenBefore(sockets, start, port)
      ensures ScanAfter(sockets, Scan(start, 0), turns) == Scan(port, |sockets|)
    {
      var current := headSocket;
      ghost var i := 0;
      turns := 0;
      while current != null
        invariant Linked() && 0 <= i <= |sockets| && current == At(i)
        invariant Searching(sockets, start, Scan(lastDefaultPort, i), free)
        invariant ScanAfter(sockets, Scan(start, 0), turns) == Scan(lastDefaultPort, i)
        decreases Steps(lastDefaultPort, free), |sockets| - i
      {
        OneMoreTurn(sockets, Scan(start, 0), turns);
        SearchStep(sockets, start, Scan(lastDefaultPort, i), free);
        turns := turns + 1;
        if current.sport == lastDefaultPort {
          lastDefaultPort := NextPort(lastDefaultPort);
          current := headSocket;
          i := 0;
        } else {
          current := current.next;
          i := i + 1;
        }
      }
      port := lastDefaultPort;
    }

    /** A socket without a port gets a free one; a port in use is refused; otherwise the
        socket goes to the front. */
    method Bind(socket: UdpSocket) returns (ok: bool)
      requires Valid()
      requires socket.sport == UNUSED_PORT ==> HasFreePort(sockets)
      modifies this`lastDefaultPort, this`headSocket, this`sockets, socket
      ensures Valid()
      ensures ok <==> old(socket.sport) == UNUSED_PORT || !old(Taken(sockets, socket.sport))
      ensures ok ==> sockets == [socket] + old(sockets) && socket !in old(sockets)
      ensures ok ==> if old(socket.sport) == UNUSED_PORT then IsDefault(socket.sport) && !old(Taken(sockets, socket.sport))
                     else socket.sport == old(socket.sport)
      ensures !ok ==> sockets == old(sockets) && socket.sport == old(socket.sport) && socket.next == old(socket.next)
    {
      var sport := socket.sport;
      if sport == UNUSED_PORT {
        var p, _ := GetFreePort();
        socket.sport := p;
      } else {
        var current := headSocket;
        ghost var i := 0;
        while current != null
          invariant 0 <= i <= |sockets| && current == At(i)
          invariant forall k | 0 <= k < i :: sockets[k].sport != sport
          decreases |sockets| - i
        {
          if current.sport == sport {
            return false;
          }
          current := current.next;
          i := i + 1;
        }
      }
      socket.next := headSocket;
      headSocket := socket;
      sockets := [socket] + sockets;
      return true;
    }

    method UnlinkAfter(current: UdpSocket, ghost i: nat)
      requires Valid() && i + 1 < |sockets| && current == sockets[i]
      modifies this`sockets, current`next
      ensures Valid()
      ensures sockets == CutAfter(old(sockets), i)
    {
      var next := current.next;
      ghost var before := sockets;
      current.next := next.next;
      sockets := CutAfter(before, i);
      CutKeeps(before, i);
      forall k | 0 <= k < |sockets|
        ensures sockets[k].next == At(k + 1) && sockets[k] in before
      {
        if k == i {
          assert next == before[i + 1];
        } else {
          assert sockets[k] != current;
        }
      }
    }

    /** The head is followed whether or not there is one: the call faults if and only if the
        list is empty. */
    method Unbind(socket: UdpSocket)
      requires Valid()
      modifies this`headSocket, this`sockets, this`fault, sockets
      ensures Valid() && fault == (old(fault) || old(headSocket) == null)
      ensures sockets == Without(old(sockets), socket)
      ensures forall s | s in old(sockets) :: s.sport == old(s.sport)
    {
      if socket == headSocket {
        headSocket := socket.next;
        WithoutAt(sockets, 0);
        sockets := sockets[1..];
      } else if headSocket == null {
        fault := true;
      } else {
        var current := headSocket;
        var next := current.next;
        ghost var i := 0;
        while next != null
          invariant 0 <= i < |sockets| && current == At(i) && next == At(i + 1)
          invariant forall k | 0 <= k <= i :: sockets[k] != socket
          decreases |sockets| - i
        {
          if next == socket {
            WithoutAt(sockets, i + 1);
            UnlinkAfter(current, i);
            return;
          }
          current := next;
          next := current.next;
          i := i + 1;
        }
        WithoutAbsent(sockets, socket);
      }
    }
  }

  // ---------------------------------------------------------------- the failing calls

  /** The destructor of a socket unbinds it once more: after a bind and an unbind that is one
      call too many, unless another socket is bound. */
  method UnbindAgain() returns (first: bool, second: bool)
    ensures !first && second
  {
    var demux := new Demux();
    var socket := new UdpSocket(UNUSED_PORT);
    FewSocketsLeaveAPort(demux.sockets);
    var _ := demux.Bind(socket);
    demux.Unbind(socket);
    first := demux.fault;
    demux.Unbind(socket);
    second := demux.fault;
  }

  /** So it is for a socket that was never bound. */
  method UnbindUnbound() returns (fault: bool)
    ensures fault
  {
    var demux := new Demux();
    var socket := new UdpSocket(UNUSED_PORT);
    demux.Unbind(socket);
    fault := demux.fault;
  }

  /** 64512 sockets that leave no port: the next search does not end. */
  method BindAllPorts() returns (demux: Demux)
    ensures demux.Valid() && |demux.sockets| == PORTS - FIRST_DEFAULT
    ensures !HasFreePort(demux.sockets)
    ensures !Ends(demux.sockets, Scan(NextPort(demux.lastDefaultPort), 0))
  {
    demux := new Demux();
    var port := FIRST_DEFAULT;
    while port < PORTS
      invariant fresh(demux) && FIRST_DEFAULT <= port <= PORTS && demux.Valid()
      invariant |demux.sockets| == port - FIRST_DEFAULT
      invariant forall i | 0 <= i < |demux.sockets| :: fresh(demux.sockets[i]) && demux.sockets[i].sport == port - 1 - i
    {
      var socket := new UdpSocket(port);
      var ok := demux.Bind(socket);
      port := port + 1;
    }
    forall p | IsDefault(p)
      ensures Taken(demux.sockets, p)
    {
      assert demux.sockets[PORTS - 1 - p].sport == p;
    }
    ScanEndsIff(demux.sockets, NextPort(demux.lastDefaultPort));
  }
}
