/** The ones'-complement checksum of TCP, UDP and ICMP (RFC 1071), and the two pseudo headers.

    The stack adds big-endian 16-bit words in a `uint32_t` and folds the carries at the end.
    `OnesComplementSum` is the definition of RFC 1071 to compare with: 16-bit additions with
    an end-around carry.  The host is little-endian. */
module InternetChecksum {
  import opened Basics

  const MODULUS16: int := 0x1_0000
  const MODULUS32: int := 0x1_0000_0000
  const ONES: int := 0xFFFF

  // ---------------------------------------------------------------- words

  /** The sum of the big-endian words of `d`; an odd last octet is padded with zero. */
  function WordSum(d: seq<byte>): nat {
    if |d| == 0 then 0
    else if |d| == 1 then 0x100 * d[0]
    else 0x100 * d[0] + d[1] + WordSum(d[2..])
  }

  /** The word a little-endian host loads. */
  function Load(lo: byte, hi: byte): uint16 {
    lo + 0x100 * hi
  }

  function Byteswap16(v: uint16): uint16 {
    v % 0x100 * 0x100 + v / 0x100
  }

  function Word(hi: byte, lo: byte): uint16 {
    0x100 * hi + lo
  }

  function High(v: uint16): byte {
    v / 0x100
  }

  function Low(v: uint16): byte {
    v % 0x100
  }

  lemma WordOfOctets(v: uint16)
    ensures Word(High(v), Low(v)) == v
  {
  }

  lemma LoadSwapped(first: byte, second: byte)
    ensures Byteswap16(Load(first, second)) == Word(first, second)
  {
    assert Load(first, second) % 0x100 == first && Load(first, second) / 0x100 == second;
  }

  lemma {:induction false} WordSumSplit(a: seq<byte>, b: seq<byte>)
    requires |a| % 2 == 0
    ensures WordSum(a + b) == WordSum(a) + WordSum(b)
    decreases |a|
  {
    if |a| == 0 {
      assert a + b == b;
    } else {
      assert (a + b)[2..] == a[2..] + b;
      WordSumSplit(a[2..], b);
    }
  }

  lemma {:induction false} WordSumBound(d: seq<byte>)
    ensures WordSum(d) <= (|d| + 1) / 2 * ONES
    decreases |d|
  {
    if |d| > 1 {
      WordSumBound(d[2..]);
    }
  }

  /** One more pair of octets. */
  lemma WordSumNext(d: seq<byte>, i: nat)
    requires 2 * i + 2 <= |d|
    ensures WordSum(d[.. 2 * i + 2]) == WordSum(d[.. 2 * i]) + Word(d[2 * i], d[2 * i + 1])
  {
    var pair := [d[2 * i], d[2 * i + 1]];
    assert d[.. 2 * i + 2] == d[.. 2 * i] + pair;
    WordSumSplit(d[.. 2 * i], pair);
    assert WordSum(pair[2..]) == 0;
  }

  // ---------------------------------------------------------------- folding

  /** What folding the carries of `c` comes to: 0 for 0, else the representative of `c`
      modulo 65535 in 1 .. 65535. */
  function Folded(c: nat): (r: uint16)
    ensures r == 0 <==> c == 0
    ensures (c - r) % ONES == 0
  {
    if c == 0 then 0
    else
      var r := (c - 1) % ONES + 1;
      Multiple((c - 1) / ONES, c - r);
      r
  }

  lemma Multiple(q: int, x: int)
    requires x == ONES * q
    ensures x % ONES == 0
  {
  }

  /** Value and residue class determine the folded sum. */
  lemma FoldedIs(c: nat, q: int, r: uint16)
    requires c == ONES * q + r && c > 0 && r > 0
    ensures Folded(c) == r
  {
    Residue(c - 1, q, r - 1);
  }

  lemma Residue(x: int, q: int, r: int)
    requires x == ONES * q + r && 0 <= r < ONES
    ensures x % ONES == r
  {
  }

  /** Folding a number of the same class gives the same result. */
  lemma FoldedShift(c: nat, d: nat, q: int)
    requires c > 0 && d > 0 && c == d + ONES * q
    ensures Folded(c) == Folded(d)
  {
    var r := Folded(d);
    assert d - r == ONES * ((d - r) / ONES);
    FoldedIs(c, q + (d - r) / ONES, r);
  }

  /** One round of the loop keeps the folded value. */
  lemma FoldKeeps(c: nat)
    ensures Folded(c % MODULUS16 + c / MODULUS16) == Folded(c)
  {
    if c > 0 {
      FoldedShift(c, c % MODULUS16 + c / MODULUS16, c / MODULUS16);
    }
  }

  method AccumulateCarryBits(csum: uint32) returns (r: uint16)
    ensures r == Folded(csum)
  {
    var c := csum;
    while c / MODULUS16 != 0
      invariant 0 <= c < MODULUS32 && Folded(c) == Folded(csum)
      decreases c
    {
      FoldKeeps(c);
      c := c % MODULUS16 + c / MODULUS16;
    }
    if c > 0 {
      FoldedIs(c, 0, c);
    }
    r := c;
  }

  /** 16-bit addition with an end-around carry (section 2 of RFC 1071). */
  function EndAround(a: uint16, b: uint16): uint16 {
    if a + b < MODULUS16 then a + b else a + b - ONES
  }

  function OnesComplementSum(acc: uint16, d: seq<byte>): uint16
    decreases |d|
  {
    if |d| == 0 then acc
    else if |d| == 1 then EndAround(acc, Word(d[0], 0))
    else OnesComplementSum(EndAround(acc, Word(d[0], d[1])), d[2..])
  }

  lemma EndAroundIsFolded(x: nat, w: uint16)
    ensures EndAround(Folded(x), w) == Folded(x + w)
  {
    var r := Folded(x);
    var q := (x - r) / ONES;
    assert x - r == ONES * q;
    var e := EndAround(r, w);
    if e > 0 {
      if r + w < MODULUS16 {
        FoldedIs(x + w, q, e);
      } else {
        FoldedIs(x + w, q + 1, e);
      }
    }
  }

  /** Adding in 32 bits and folding at the end is the ones'-complement sum. */
  lemma {:induction false} FoldedIsOnesComplementSum(x: nat, d: seq<byte>)
    ensures Folded(x + WordSum(d)) == OnesComplementSum(Folded(x), d)
    decreases |d|
  {
    if |d| == 1 {
      EndAroundIsFolded(x, Word(d[0], 0));
    } else if |d| > 1 {
      EndAroundIsFolded(x, Word(d[0], d[1]));
      FoldedIsOnesComplementSum(x + Word(d[0], d[1]), d[2..]);
    }
  }

  // ---------------------------------------------------------------- the payload

  function Truncate32(x: nat): uint32 {
    x % MODULUS32
  }

  /** The last octet of an odd payload, shifted to the upper half of its word. */
  function Padding(d: seq<byte>): uint16 {
    if |d| % 2 == 1 then Word(d[|d| - 1], 0) else 0
  }

  lemma WordSumWithPadding(d: seq<byte>, n: nat)
    requires 2 * n <= |d| <= 2 * n + 1
    ensures WordSum(d) == Padding(d) + WordSum(d[.. 2 * n])
  {
    var whole, rest := d[.. 2 * n], d[2 * n ..];
    assert d == whole + rest;
    WordSumSplit(whole, rest);
    LastWord(rest);
    if |d| == 2 * n + 1 {
      assert rest[0] == d[|d| - 1];
    }
  }

  lemma LastWord(rest: seq<byte>)
    requires |rest| <= 1
    ensures WordSum(rest) == if |rest| == 1 then Word(rest[0], 0) else 0
  {
  }

  /** What the loop has added up after `i` turns. */
  ghost function Partial(d: seq<byte>, i: nat): nat
    requires 2 * i <= |d|
  {
    Padding(d) + WordSum(d[.. 2 * i])
  }

  /** What one turn of the loop adds; 65535 octets cannot overflow 32 bits. */
  lemma PartialStep(d: seq<byte>, i: nat)
    requires 2 * i + 2 <= |d| <= ONES
    ensures Truncate32(Partial(d, i) + Byteswap16(Load(d[2 * i], d[2 * i + 1]))) == Partial(d, i + 1)
  {
    LoadSwapped(d[2 * i], d[2 * i + 1]);
    PartialNext(d, i);
    NoWrap(Partial(d, i + 1));
  }

  lemma PartialNext(d: seq<byte>, i: nat)
    requires 2 * i + 2 <= |d| <= ONES
    ensures Partial(d, i + 1) == Partial(d, i) + Word(d[2 * i], d[2 * i + 1]) < MODULUS32
  {
    WordSumNext(d, i);
    WordSumBound(d[.. 2 * i + 2]);
    assert d[.. 2 * (i + 1)] == d[.. 2 * i + 2];
  }

  lemma NoWrap(x: nat)
    requires x < MODULUS32
    ensures Truncate32(x) == x
  {
  }

  /** The octet that an odd length leaves over. */
  method PadOdd(data: array<byte>, len: uint16) returns (csum: uint32)
    requires len <= data.Length
    ensures csum == Padding(data[..len])
  {
    csum := 0;
    if len % 2 == 1 {
      var odd: uint16 := data[len - 1];
      csum := odd % 0x100 * 0x100;
    }
  }

  /** The padded octet first, then the loop over the words, in 32-bit arithmetic. */
  method ComputePayload(data: array<byte>, len: uint16) returns (csum: uint32)
    requires len <= data.Length
    ensures csum == WordSum(data[..len])
  {
    ghost var d := data[..len];
    csum := PadOdd(data, len);
    var n := len / 2;
    var i := 0;
    assert Partial(d, 0) == csum;
    while i < n
      invariant 0 <= i <= n
      invariant csum == Partial(d, i)
    {
      PartialStep(d, i);
      csum := Truncate32(csum + Byteswap16(Load(data[2 * i], data[2 * i + 1])));
      i := i + 1;
    }
    WordSumWithPadding(d, n);
  }

  // ---------------------------------------------------------------- compute and verify

  /** `calc_checksum`: the inverted folded sum of the pseudo header and the packet. */
  function Checksum(pseudo: uint32, d: seq<byte>): uint16 {
    ONES - Folded(Truncate32(pseudo + WordSum(d)))
  }

  predicate ChecksumValid(pseudo: uint32, d: seq<byte>) {
    Checksum(pseudo, d) == 0
  }

  method CalcChecksum(pseudo: uint32, data: array<byte>, len: uint16) returns (c: uint16)
    requires len <= data.Length
    ensures c == Checksum(pseudo, data[..len])
  {
    var payload := ComputePayload(data, len);
    var folded := AccumulateCarryBits(Truncate32(pseudo + payload));
    c := ONES - folded;
  }

  /** Large enough for the sum of any pseudo header below. */
  const PSEUDO_MAX: int := 18 * ONES

  predicate Fits(pseudo: uint32, d: seq<byte>) {
    pseudo <= PSEUDO_MAX && |d| <= ONES
  }

  /** With such a pseudo header the 32-bit sum does not wrap around. */
  lemma ChecksumIsExact(pseudo: uint32, d: seq<byte>)
    requires Fits(pseudo, d)
    ensures pseudo + WordSum(d) < MODULUS32
    ensures Checksum(pseudo, d) == ONES - Folded(pseudo + WordSum(d))
  {
    WordSumBound(d);
    NoWrap(pseudo + WordSum(d));
  }

  /** The folded sum is zero in its second representation exactly for a positive multiple. */
  predicate Balanced(t: nat) {
    t > 0 && t % ONES == 0
  }

  lemma FoldsToOnes(t: nat)
    ensures Folded(t) == ONES <==> Balanced(t)
  {
    var r := Folded(t);
    var q := (t - r) / ONES;
    assert t - r == ONES * q;
    if r == ONES {
      Residue(t, q + 1, 0);
    } else {
      Residue(t, q, r);
    }
  }

  /** The checksum is the inverse of the ones'-complement sum of RFC 1071. */
  lemma ChecksumIsOnesComplement(pseudo: uint32, d: seq<byte>)
    requires Fits(pseudo, d)
    ensures Checksum(pseudo, d) == ONES - OnesComplementSum(Folded(pseudo), d)
  {
    ChecksumIsExact(pseudo, d);
    FoldedIsOnesComplementSum(pseudo, d);
  }

  /** A packet is accepted exactly when its sum is a positive multiple of 65535. */
  lemma ValidIffBalanced(pseudo: uint32, d: seq<byte>)
    requires Fits(pseudo, d)
    ensures ChecksumValid(pseudo, d) <==> Balanced(pseudo + WordSum(d))
  {
    ChecksumIsExact(pseudo, d);
    FoldsToOnes(pseudo + WordSum(d));
  }

  /** The big-endian field at `off`. */
  function Field(d: seq<byte>, off: nat): uint16
    requires off + 2 <= |d|
  {
    Word(d[off], d[off + 1])
  }

  /** `d` with a zero field at `off`. */
  function Cleared(d: seq<byte>, off: nat): (r: seq<byte>)
    requires off + 2 <= |d|
    ensures |r| == |d|
  {
    d[..off] + [0, 0] + d[off + 2 ..]
  }

  /** `d` with `v` stored big-endian at `off`. */
  function WithField(d: seq<byte>, off: nat, v: uint16): (r: seq<byte>)
    requires off + 2 <= |d|
    ensures |r| == |d| && Field(r, off) == v
    ensures r[..off] == d[..off] && r[off + 2 ..] == d[off + 2 ..]
  {
    WordOfOctets(v);
    d[..off] + [High(v), Low(v)] + d[off + 2 ..]
  }

  lemma WordSumAround(a: seq<byte>, hi: byte, lo: byte, b: seq<byte>)
    requires |a| % 2 == 0
    ensures WordSum(a + [hi, lo] + b) == WordSum(a) + Word(hi, lo) + WordSum(b)
  {
    assert a + [hi, lo] + b == a + ([hi, lo] + b);
    WordSumSplit(a, [hi, lo] + b);
    assert ([hi, lo] + b)[2..] == b;
  }

  lemma FieldParts(d: seq<byte>, off: nat)
    requires off + 2 <= |d|
    ensures d == d[..off] + [d[off], d[off + 1]] + d[off + 2 ..]
  {
  }

  /** The sum is the sum with the field cleared, plus the field. */
  lemma SumSplits(d: seq<byte>, off: nat)
    requires off % 2 == 0 && off + 2 <= |d|
    ensures WordSum(d) == WordSum(Cleared(d, off)) + Field(d, off)
  {
    FieldParts(d, off);
    WordSumAround(d[..off], d[off], d[off + 1], d[off + 2 ..]);
    WordSumAround(d[..off], 0, 0, d[off + 2 ..]);
  }

  /** Only the last store counts. */
  lemma RestoredField(d: seq<byte>, off: nat, v: uint16)
    requires off + 2 <= |d|
    ensures WithField(Cleared(d, off), off, v) == WithField(d, off, v)
    ensures Cleared(WithField(d, off, v), off) == Cleared(d, off)
  {
    var w, z := WithField(d, off, v), Cleared(d, off);
    assert z[..off] == d[..off] && z[off + 2 ..] == d[off + 2 ..];
  }

  /** The value the sender stores: computed while the field is zero. */
  function Sealed(pseudo: uint32, d: seq<byte>, off: nat): uint16
    requires off + 2 <= |d|
  {
    Checksum(pseudo, Cleared(d, off))
  }

  lemma SealedIs(pseudo: uint32, d: seq<byte>, off: nat)
    requires Fits(pseudo, d) && off + 2 <= |d|
    ensures Sealed(pseudo, d, off) == ONES - Folded(pseudo + WordSum(Cleared(d, off)))
  {
    ChecksumIsExact(pseudo, Cleared(d, off));
  }

  /** Which words complete a sum to a positive multiple of 65535. */
  lemma FieldDecides(t: nat, f: uint16)
    ensures Balanced(t + f) <==> f == ONES - Folded(t) || (Folded(t) == ONES && f == ONES)
  {
    var r := Folded(t);
    var q := (t - r) / ONES;
    assert t - r == ONES * q;
    if r + f < ONES {
      Residue(t + f, q, r + f);
    } else if r + f < 2 * ONES {
      Residue(t + f, q + 1, r + f - ONES);
    } else {
      Residue(t + f, q + 2, 0);
    }
  }

  /** A receiver accepts exactly the stored value the sender computes, and where that is
      zero also the other representation of zero. */
  lemma AcceptedFields(pseudo: uint32, d: seq<byte>, off: nat)
    requires Fits(pseudo, d) && off % 2 == 0 && off + 2 <= |d|
    ensures ChecksumValid(pseudo, d) <==>
              || Field(d, off) == Sealed(pseudo, d, off)
              || (Sealed(pseudo, d, off) == 0 && Field(d, off) == ONES)
  {
    var t, f := pseudo + WordSum(Cleared(d, off)), Field(d, off);
    SumSplits(d, off);
    assert pseudo + WordSum(d) == t + f;
    ValidIffBalanced(pseudo, d);
    SealedIs(pseudo, d, off);
    FieldDecides(t, f);
  }

  /** Storing the computed checksum makes the packet valid, whatever its contents, its length
      (odd or even, up to 65535) and the even place of the field. */
  lemma StoredIsValid(pseudo: uint32, d: seq<byte>, off: nat)
    requires Fits(pseudo, d) && off % 2 == 0 && off + 2 <= |d|
    ensures ChecksumValid(pseudo, WithField(d, off, Sealed(pseudo, d, off)))
  {
    var c := Sealed(pseudo, d, off);
    var s := WithField(d, off, c);
    RestoredField(d, off, c);
    AcceptedFields(pseudo, s, off);
  }

  /** Of two accepted packets that differ in one word at most, the words are equal or are the
      two representations of zero: a change of one word is detected. */
  lemma OneWordChangeIsDetected(pseudo: uint32, d: seq<byte>, off: nat, v: uint16)
    requires Fits(pseudo, d) && off % 2 == 0 && off + 2 <= |d|
    requires ChecksumValid(pseudo, d)
    ensures ChecksumValid(pseudo, WithField(d, off, v)) <==>
              || v == Field(d, off)
              || (Sealed(pseudo, d, off) == 0 && v in {0, ONES})
  {
    var s := WithField(d, off, v);
    RestoredField(d, off, v);
    AcceptedFields(pseudo, d, off);
    AcceptedFields(pseudo, s, off);
  }

  // ---------------------------------------------------------------- zero means unprotected

  /** The receive path of UDP takes a zero field for "no checksum". */
  predicate UdpAccepts(pseudo: uint32, d: seq<byte>, field: nat)
    requires field + 2 <= |d|
  {
    Field(d, field) == 0 || ChecksumValid(pseudo, d)
  }

  predicate SameWord(v: uint16, w: uint16) {
    v == w || (v in {0, ONES} && w in {0, ONES})
  }

  /** Every change of one word of `s` outside the checksum field is detected. */
  ghost predicate Protected(pseudo: uint32, s: seq<byte>, field: nat)
    requires field + 2 <= |s|
  {
    forall off: nat, v: uint16 |
      off % 2 == 0 && off + 2 <= |s| && off != field && UdpAccepts(pseudo, WithField(s, off, v), field) ::
      SameWord(v, Field(s, off))
  }

  lemma OtherField(s: seq<byte>, off: nat, v: uint16, field: nat)
    requires off % 2 == 0 && field % 2 == 0 && off + 2 <= |s| && field + 2 <= |s| && off != field
    ensures Field(WithField(s, off, v), field) == Field(s, field)
  {
    var w := WithField(s, off, v);
    if off < field {
      assert w[field] == w[off + 2 ..][field - off - 2] && s[field] == s[off + 2 ..][field - off - 2];
      assert w[field + 1] == w[off + 2 ..][field - off - 1] && s[field + 1] == s[off + 2 ..][field - off - 1];
    } else {
      assert w[field] == w[..off][field] && w[field + 1] == w[..off][field + 1];
    }
  }

  lemma NonzeroProtects(pseudo: uint32, s: seq<byte>, field: nat)
    requires Fits(pseudo, s) && field % 2 == 0 && field + 2 <= |s|
    requires ChecksumValid(pseudo, s) && Field(s, field) != 0
    ensures Protected(pseudo, s, field)
  {
    forall off: nat, v: uint16 |
      off % 2 == 0 && off + 2 <= |s| && off != field && UdpAccepts(pseudo, WithField(s, off, v), field)
      ensures SameWord(v, Field(s, off))
    {
      OtherField(s, off, v, field);
      OneWordChangeIsDetected(pseudo, s, off, v);
      AcceptedFields(pseudo, s, off);
    }
  }

  lemma ZeroExposes(pseudo: uint32, s: seq<byte>, field: nat, off: nat, v: uint16)
    requires off % 2 == 0 && field % 2 == 0 && off + 2 <= |s| && field + 2 <= |s| && off != field
    requires Field(s, field) == 0 && !SameWord(v, Field(s, off))
    ensures !Protected(pseudo, s, field)
  {
    OtherField(s, off, v, field);
    assert UdpAccepts(pseudo, WithField(s, off, v), field);
  }

  function OtherWord(w: uint16): (v: uint16)
    ensures !SameWord(v, w)
  {
    if w == 1 then 2 else 1
  }

  lemma ZeroIsNotProtected(pseudo: uint32, s: seq<byte>, field: nat)
    requires 2 <= field && field % 2 == 0 && field + 2 <= |s| && Field(s, field) == 0
    ensures !Protected(pseudo, s, field)
  {
    var off := field - 2;
    ZeroExposes(pseudo, s, field, off, OtherWord(Field(s, off)));
  }

  /** What the transmit path stores is zero exactly for a datagram whose sum, the field left
      out, is a positive multiple of 65535. */
  lemma SealedIsZeroIff(pseudo: uint32, d: seq<byte>, field: nat)
    requires Fits(pseudo, d) && field + 2 <= |d|
    ensures Sealed(pseudo, d, field) == 0 <==> Balanced(pseudo + WordSum(Cleared(d, field)))
  {
    SealedIs(pseudo, d, field);
    FoldsToOnes(pseudo + WordSum(Cleared(d, field)));
  }

  /** The transmit path stores a computed zero as it is, where RFC 768 asks for all ones.  A
      sent datagram is accepted; it is protected if and only if its sum, the field left out, is
      not a positive multiple of 65535. */
  lemma SentUdpIsProtectedIff(pseudo: uint32, d: seq<byte>, field: nat)
    requires Fits(pseudo, d) && 2 <= field && field % 2 == 0 && field + 2 <= |d|
    ensures var s := WithField(d, field, Sealed(pseudo, d, field));
            && UdpAccepts(pseudo, s, field)
            && (Protected(pseudo, s, field) <==> !Balanced(pseudo + WordSum(Cleared(d, field))))
  {
    var s := WithField(d, field, Sealed(pseudo, d, field));
    StoredIsValid(pseudo, d, field);
    SealedIsZeroIff(pseudo, d, field);
    if Field(s, field) != 0 {
      NonzeroProtects(pseudo, s, field);
    } else {
      ZeroIsNotProtected(pseudo, s, field);
    }
  }

  /** An empty datagram from port 1. */
  const UNPROTECTED: seq<byte> := [0, 1, 0, 0, 0, 8, 0, 0]

  /** From 192.168.0.1 to 10.0.53.52 it is sent without protection. */
  lemma UnprotectedDatagram()
    ensures PseudoHeaderV4(Load32([192, 168, 0, 1]), Load32([10, 0, 53, 52]), 8, 17) == 0xFFF6
    ensures Sealed(0xFFF6, UNPROTECTED, 6) == 0
    ensures !Protected(0xFFF6, WithField(UNPROTECTED, 6, 0), 6)
  {
    AddressWords([192, 168, 0, 1]);
    AddressWords([10, 0, 53, 52]);
    TwoWords([192, 168, 0, 1]);
    TwoWords([10, 0, 53, 52]);
    var d := UNPROTECTED;
    assert Cleared(d, 6) == d;
    FourWords(d);
    SealedIs(0xFFF6, d, 6);
    FoldedIs(0xFFFF, 0, 0xFFFF);
    ZeroIsNotProtected(0xFFF6, WithField(d, 6, 0), 6);
  }

  lemma TwoWords(a: seq<byte>)
    requires |a| == 4
    ensures WordSum(a) == Word(a[0], a[1]) + Word(a[2], a[3])
  {
    assert WordSum(a[2..]) == Word(a[2], a[3]) + WordSum(a[2..][2..]);
  }

  lemma FourWords(d: seq<byte>)
    requires |d| == 8
    ensures WordSum(d) == Word(d[0], d[1]) + Word(d[2], d[3]) + Word(d[4], d[5]) + Word(d[6], d[7])
  {
    assert d[2..][2..] == d[4..] && d[4..][2..] == d[6..];
    assert WordSum(d[6..]) == Word(d[6], d[7]) + WordSum(d[6..][2..]);
    assert WordSum(d[4..]) == Word(d[4], d[5]) + WordSum(d[6..]);
    assert WordSum(d[2..]) == Word(d[2], d[3]) + WordSum(d[4..]);
  }

  // ---------------------------------------------------------------- sending

  /** What the transmit path does before a packet leaves: clear the field, compute, store in
      network byte order. */
  method Seal(pseudo: uint32, packet: array<byte>, len: uint16, off: nat)
    requires len <= packet.Length && off + 2 <= len
    modifies packet
    ensures packet[..len] == WithField(old(packet[..len]), off, Sealed(pseudo, old(packet[..len]), off))
    ensures packet[len..] == old(packet[len..])
    ensures off % 2 == 0 && pseudo <= PSEUDO_MAX ==> ChecksumValid(pseudo, packet[..len])
  {
    ClearField(packet, off);
    ClearedWithin(old(packet[..]), len, off);
    var c := CalcChecksum(pseudo, packet, len);
    StoreField(packet, off, c);
    StoredWithin(old(packet[..]), len, off, c);
    RestoredField(old(packet[..]), off, c);
    if off % 2 == 0 && pseudo <= PSEUDO_MAX {
      StoredIsValid(pseudo, old(packet[..len]), off);
    }
  }

  /** `set_checksum(0)`. */
  method ClearField(packet: array<byte>, off: nat)
    requires off + 2 <= packet.Length
    modifies packet
    ensures packet[..] == Cleared(old(packet[..]), off)
  {
    packet[off], packet[off + 1] := 0, 0;
  }

  /** `set_checksum`, in network byte order. */
  method StoreField(packet: array<byte>, off: nat, v: uint16)
    requires off + 2 <= packet.Length
    modifies packet
    ensures packet[..] == WithField(old(packet[..]), off, v)
  {
    packet[off], packet[off + 1] := High(v), Low(v);
  }

  lemma ClearedWithin(d: seq<byte>, len: nat, off: nat)
    requires off + 2 <= len <= |d|
    ensures Cleared(d, off)[..len] == Cleared(d[..len], off)
  {
    var n := len - off - 2;
    assert Cleared(d, off)[..len] == d[..off] + [0, 0] + d[off + 2 ..][..n];
    assert d[off + 2 ..][..n] == d[..len][off + 2 ..];
    assert d[..len][..off] == d[..off];
  }

  lemma StoredWithin(d: seq<byte>, len: nat, off: nat, v: uint16)
    requires off + 2 <= len <= |d|
    ensures WithField(d, off, v)[..len] == WithField(d[..len], off, v)
    ensures WithField(d, off, v)[len..] == d[len..]
  {
    var w := WithField(d, off, v);
    var n := len - off - 2;
    assert w[..len] == d[..off] + [High(v), Low(v)] + d[off + 2 ..][..n];
    assert d[off + 2 ..][..n] == d[..len][off + 2 ..];
    assert d[..len][..off] == d[..off];
    assert w[len..] == d[off + 2 ..][n..];
  }

  /** The packet may be the front part of a larger memory. */
  lemma SealedWithin(pseudo: uint32, d: seq<byte>, n: nat, off: nat)
    requires off % 2 == 0 && off + 2 <= n <= |d| && Fits(pseudo, d[..n])
    ensures ChecksumValid(pseudo, WithField(d, off, Checksum(pseudo, Cleared(d, off)[..n]))[..n])
  {
    ClearedWithin(d, n, off);
    StoredWithin(d, n, off, Sealed(pseudo, d[..n], off));
    StoredIsValid(pseudo, d[..n], off);
  }

  // ---------------------------------------------------------------- pseudo headers

  /** The 32-bit value a little-endian host loads from four octets. */
  function Load32(a: seq<byte>): uint32
    requires |a| == 4
  {
    Load(a[0], a[1]) + MODULUS16 * Load(a[2], a[3])
  }

  /** The addresses as loaded from the header; each half is truncated and swapped. */
  function PseudoHeaderV4(src: uint32, dst: uint32, len: uint16, proto: byte): uint32 {
    len + proto + Byteswap16(src % MODULUS16) + Byteswap16(src / MODULUS16)
      + Byteswap16(dst % MODULUS16) + Byteswap16(dst / MODULUS16)
  }

  lemma AddressWords(a: seq<byte>)
    requires |a| == 4
    ensures Byteswap16(Load32(a) % MODULUS16) + Byteswap16(Load32(a) / MODULUS16) == WordSum(a)
  {
    assert Load32(a) == MODULUS16 * Load(a[2], a[3]) + Load(a[0], a[1]);
    assert Load32(a) % MODULUS16 == Load(a[0], a[1]) && Load32(a) / MODULUS16 == Load(a[2], a[3]);
    LoadSwapped(a[0], a[1]);
    LoadSwapped(a[2], a[3]);
    assert WordSum(a[2..]) == Word(a[2], a[3]) + WordSum(a[2..][2..]);
  }

  /** The octets of the TCP pseudo header of IPv4: addresses, zero, protocol, length. */
  function HeaderV4(src: seq<byte>, dst: seq<byte>, len: uint16, proto: byte): seq<byte> {
    src + dst + [0, proto, High(len), Low(len)]
  }

  /** The sum is that of the pseudo header of section 3.1 of RFC 793. */
  lemma PseudoHeaderV4IsWordSum(src: seq<byte>, dst: seq<byte>, len: uint16, proto: byte)
    requires |src| == 4 && |dst| == 4
    ensures PseudoHeaderV4(Load32(src), Load32(dst), len, proto) == WordSum(HeaderV4(src, dst, len, proto))
    ensures PseudoHeaderV4(Load32(src), Load32(dst), len, proto) <= PSEUDO_MAX
  {
    var tail: seq<byte> := [0, proto, High(len), Low(len)];
    AddressWords(src);
    AddressWords(dst);
    WordSumSplit(src + dst, tail);
    WordSumSplit(src, dst);
    assert WordSum(tail[2..]) == Word(High(len), Low(len)) + WordSum(tail[2..][2..]);
    WordSumBound(src + dst);
  }

  /** The eight words of an address are assembled octet by octet. */
  function AddressV6(a: seq<byte>): uint32
    requires |a| == 16
  {
    Word(a[0], a[1]) + Word(a[2], a[3]) + Word(a[4], a[5]) + Word(a[6], a[7])
      + Word(a[8], a[9]) + Word(a[10], a[11]) + Word(a[12], a[13]) + Word(a[14], a[15])
  }

  function PseudoHeaderV6(src: seq<byte>, dst: seq<byte>, len: uint16, next: byte): uint32
    requires |src| == 16 && |dst| == 16
  {
    len + AddressV6(src) + AddressV6(dst) + next
  }

  lemma AddressV6Words(a: seq<byte>)
    requires |a| == 16
    ensures AddressV6(a) == WordSum(a)
  {
    assert a[2..][2..] == a[4..] && a[4..][2..] == a[6..] && a[6..][2..] == a[8..];
    assert a[8..][2..] == a[10..] && a[10..][2..] == a[12..] && a[12..][2..] == a[14..];
    assert WordSum(a[14..]) == Word(a[14], a[15]) + WordSum(a[14..][2..]);
    assert WordSum(a[12..]) == Word(a[12], a[13]) + WordSum(a[14..]);
    assert WordSum(a[10..]) == Word(a[10], a[11]) + WordSum(a[12..]);
    assert WordSum(a[8..]) == Word(a[8], a[9]) + WordSum(a[10..]);
    assert WordSum(a[6..]) == Word(a[6], a[7]) + WordSum(a[8..]);
    assert WordSum(a[4..]) == Word(a[4], a[5]) + WordSum(a[6..]);
    assert WordSum(a[2..]) == Word(a[2], a[3]) + WordSum(a[4..]);
  }

  /** The octets of the IPv6 pseudo header: addresses, 32-bit length, zero, next header. */
  function HeaderV6(src: seq<byte>, dst: seq<byte>, len: uint16, next: byte): seq<byte> {
    src + dst + [0, 0, High(len), Low(len), 0, 0, 0, next]
  }

  /** The sum is that of the pseudo header of section 8.1 of RFC 8200. */
  lemma PseudoHeaderV6IsWordSum(src: seq<byte>, dst: seq<byte>, len: uint16, next: byte)
    requires |src| == 16 && |dst| == 16
    ensures PseudoHeaderV6(src, dst, len, next) == WordSum(HeaderV6(src, dst, len, next))
    ensures PseudoHeaderV6(src, dst, len, next) <= PSEUDO_MAX
  {
    var tail: seq<byte> := [0, 0, High(len), Low(len), 0, 0, 0, next];
    AddressV6Words(src);
    AddressV6Words(dst);
    WordSumSplit(src + dst, tail);
    WordSumSplit(src, dst);
    assert tail[2..][2..] == tail[4..] && tail[4..][2..] == tail[6..];
    assert WordSum(tail[6..]) == Word(0, next) + WordSum(tail[6..][2..]);
    assert WordSum(tail[4..]) == 0 + WordSum(tail[6..]);
    assert WordSum(tail[2..]) == Word(High(len), Low(len)) + WordSum(tail[4..]);
    WordSumBound(src + dst);
  }
}
