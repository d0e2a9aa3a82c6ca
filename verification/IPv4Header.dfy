/** The IPv4 header checksum, which adds words in the byte order of the (little-endian) host
    and folds the carries in two straight-line steps.  It is compared with the big-endian,
    loop-folded checksum of module `InternetChecksum`. */
module IPv4Header {
  import opened Basics
  import opened InternetChecksum

  const CHECKSUM_FIELD: nat := 10

  // ---------------------------------------------------------------- sums in host order

  /** The sum of the words as the host loads them. */
  function NativeSum(d: seq<byte>): nat {
    if |d| < 2 then 0 else Load(d[0], d[1]) + NativeSum(d[2..])
  }

  /** The sum of the second octets of all words. */
  function SecondOctets(d: seq<byte>): nat {
    if |d| < 2 then 0 else d[1] + SecondOctets(d[2..])
  }

  /** 256 is 2 to the 8: modulo 65535, multiplying by it swaps the octets of every word. */
  lemma {:induction false} OrdersDiffer(d: seq<byte>)
    requires |d| % 2 == 0
    ensures 0x100 * NativeSum(d) == WordSum(d) + ONES * SecondOctets(d)
    ensures NativeSum(d) == 0 <==> WordSum(d) == 0
    ensures NativeSum(d) <= |d| / 2 * ONES
    decreases |d|
  {
    if |d| > 0 {
      OrdersDiffer(d[2..]);
    }
  }

  lemma SwapScales(v: uint16)
    ensures 0x100 * v == Byteswap16(v) + ONES * (v / 0x100)
    ensures Byteswap16(v) == 0 <==> v == 0
  {
  }

  lemma SwapInverts(v: uint16)
    ensures Byteswap16(ONES - v) == ONES - Byteswap16(v)
    ensures Byteswap16(Byteswap16(v)) == v
  {
    var hi, lo := v / 0x100, v % 0x100;
    assert (ONES - v) / 0x100 == 0xFF - hi && (ONES - v) % 0x100 == 0xFF - lo;
    assert Byteswap16(v) / 0x100 == lo && Byteswap16(v) % 0x100 == hi;
  }

  /** Byte order does not matter to the folded sum (section 2 of RFC 1071). */
  lemma OrdersAgree(d: seq<byte>)
    requires |d| % 2 == 0
    ensures Byteswap16(Folded(NativeSum(d))) == Folded(WordSum(d))
  {
    OrdersDiffer(d);
    FoldedSwapped(NativeSum(d), WordSum(d), SecondOctets(d));
  }

  lemma FoldedSwapped(n: nat, w: nat, k: nat)
    requires 0x100 * n == w + ONES * k && (n == 0 <==> w == 0)
    ensures Byteswap16(Folded(n)) == Folded(w)
  {
    var r := Folded(n);
    var q := (n - r) / ONES;
    assert n - r == ONES * q;
    SwapScales(r);
    if w > 0 {
      FoldedIs(w, 0x100 * q + r / 0x100 - k, Byteswap16(r));
    }
  }

  // ---------------------------------------------------------------- the two folds

  /** Two folds suffice for any 32-bit sum. */
  lemma TwoFoldsSuffice(sum: uint32)
    ensures var once := sum / MODULUS16 + sum % MODULUS16;
            (once + once / MODULUS16) % MODULUS16 == Folded(sum)
  {
    var once := sum / MODULUS16 + sum % MODULUS16;
    FoldKeeps(sum);
    if once >= MODULUS16 {
      assert once / MODULUS16 == 1;
      FoldedIs(once, 1, once - ONES);
    } else if once > 0 {
      FoldedIs(once, 0, once);
    }
  }

  lemma NativeSumNext(d: seq<byte>, i: nat)
    requires 2 * i + 2 <= |d|
    ensures NativeSum(d[.. 2 * i + 2]) == NativeSum(d[.. 2 * i]) + Load(d[2 * i], d[2 * i + 1])
  {
    NativeSumSplit(d[.. 2 * i + 2], i);
    assert d[.. 2 * i + 2][.. 2 * i] == d[.. 2 * i];
  }

  lemma {:induction false} NativeSumSplit(d: seq<byte>, i: nat)
    requires |d| == 2 * i + 2
    ensures NativeSum(d) == NativeSum(d[.. 2 * i]) + Load(d[2 * i], d[2 * i + 1])
    decreases i
  {
    if i == 0 {
      assert d[2..] == [] && d[..0] == [];
    } else {
      NativeSumSplit(d[2..], i - 1);
      assert d[2..][.. 2 * i - 2] == d[.. 2 * i][2..];
    }
  }

  lemma AddWrapped(a: nat, b: nat)
    ensures Truncate32(Truncate32(a) + b) == Truncate32(a + b)
  {
    var q := a / MODULUS32;
    assert a == MODULUS32 * q + Truncate32(a);
    SameClass(Truncate32(a) + b, q);
  }

  lemma SameClass(x: nat, q: nat)
    ensures Truncate32(x + MODULUS32 * q) == Truncate32(x)
  {
    var p := x / MODULUS32;
    assert x == MODULUS32 * p + Truncate32(x);
    var y := x + MODULUS32 * q;
    assert y == MODULUS32 * (p + q) + Truncate32(x);
  }

  /** `cksum`. */
  method Cksum(buf: array<byte>, nwords: nat) returns (c: uint16)
    requires 2 * nwords <= buf.Length
    ensures c == ONES - Folded(Truncate32(NativeSum(buf[.. 2 * nwords])))
  {
    var sum: uint32 := 0;
    var left, at := nwords, 0;
    while left > 0
      invariant 0 <= left <= nwords && at == 2 * (nwords - left)
      invariant sum == Truncate32(NativeSum(buf[..at]))
    {
      NativeSumNext(buf[..], nwords - left);
      assert buf[..][..at] == buf[..at] && buf[..][.. at + 2] == buf[.. at + 2];
      AddWrapped(NativeSum(buf[..at]), Load(buf[at], buf[at + 1]));
      sum := Truncate32(sum + Load(buf[at], buf[at + 1]));
      at := at + 2;
      left := left - 1;
    }
    TwoFoldsSuffice(sum);
    sum := sum / MODULUS16 + sum % MODULUS16;
    sum := sum + sum / MODULUS16;
    c := ONES - sum % MODULUS16;
  }

  /** The two implementations agree on every even number of octets that a 16-bit length can
      describe: one is the byte swap of the other. */
  lemma ImplementationsAgree(d: seq<byte>)
    requires |d| % 2 == 0 && |d| <= ONES
    ensures Byteswap16(ONES - Folded(Truncate32(NativeSum(d)))) == Checksum(0, d)
  {
    OrdersDiffer(d);
    NoWrap(NativeSum(d));
    OrdersAgree(d);
    SwapInverts(Folded(NativeSum(d)));
    ChecksumIsExact(0, d);
  }

  // ---------------------------------------------------------------- the header

  /** Octets covered by the header checksum: four for each unit of `ihl`. */
  function HeaderLength(d: seq<byte>): nat
    requires |d| > 0
  {
    d[0] % 0x10 * 4
  }

  /** The first octet of an IPv4 header: version 4, and the length in 32-bit words. */
  predicate Begins(d: seq<byte>, ihl: nat) {
    5 <= ihl <= 15 && 4 * ihl <= |d| && d[0] == 0x40 + ihl
  }

  lemma LengthIs(d: seq<byte>, ihl: nat)
    requires Begins(d, ihl)
    ensures HeaderLength(d) == 4 * ihl
  {
  }

  /** The same of the value the header check decides by. */
  lemma ValidHeaderIff(d: seq<byte>, ihl: nat)
    requires Begins(d, ihl)
    ensures ChecksumValid(0, d[..HeaderLength(d)]) <==> Balanced(WordSum(d[.. 4 * ihl]))
  {
    LengthIs(d, ihl);
    ValidIffBalanced(0, d[.. 4 * ihl]);
  }

  lemma OtherOctets(d: seq<byte>, e: seq<byte>)
    requires 12 <= |d| == |e| && e[..10] == d[..10] && e[12..] == d[12..]
    ensures forall k | 0 <= k < |d| && k != 10 && k != 11 :: e[k] == d[k]
  {
    forall k | 0 <= k < |d| && k != 10 && k != 11
      ensures e[k] == d[k]
    {
      if k < 10 {
        assert e[..10][k] == d[..10][k];
      } else {
        assert e[12..][k - 12] == d[12..][k - 12];
      }
    }
  }

  /** The checksum over as many words as `ihl` says. */
  method HeaderCksum(hdr: array<byte>) returns (c: uint16)
    requires hdr.Length > 0 && HeaderLength(hdr[..]) <= hdr.Length
    ensures Byteswap16(c) == Checksum(0, hdr[..HeaderLength(hdr[..])])
  {
    var ihl := hdr[0] % 0x10;
    assert HeaderLength(hdr[..]) == 4 * ihl;
    c := Cksum(hdr, ihl * 2);
    ImplementationsAgree(hdr[.. 4 * ihl]);
  }

  /** `validPacketChecksum` decides what the big-endian checksum decides: a header of `ihl` words
      is accepted if and only if its words, in network order, add up to a positive multiple of
      65535. */
  method ValidPacketChecksum(hdr: array<byte>) returns (ok: bool)
    requires hdr.Length > 0 && HeaderLength(hdr[..]) <= hdr.Length
    ensures ok <==> ChecksumValid(0, hdr[..HeaderLength(hdr[..])])
    ensures forall ihl | Begins(hdr[..], ihl) :: ok <==> Balanced(WordSum(hdr[..][.. 4 * ihl]))
  {
    var c := HeaderCksum(hdr);
    SwapScales(c);
    ok := c == 0;
    forall ihl | Begins(hdr[..], ihl)
      ensures ok <==> Balanced(WordSum(hdr[..][.. 4 * ihl]))
    {
      ValidHeaderIff(hdr[..], ihl);
      assert hdr[..][..HeaderLength(hdr[..])] == hdr[..HeaderLength(hdr[..])];
    }
  }

  /** The host stores the low octet first. */
  method StoreNative(hdr: array<byte>, off: nat, v: uint16)
    requires off + 2 <= hdr.Length
    modifies hdr
    ensures hdr[..] == WithField(old(hdr[..]), off, Byteswap16(v))
  {
    hdr[off], hdr[off + 1] := Low(v), High(v);
    SwappedOctets(v);
  }

  lemma SwappedOctets(v: uint16)
    ensures High(Byteswap16(v)) == Low(v) && Low(Byteswap16(v)) == High(v)
  {
  }

  /** Clear the field, add up in host order, store in host order. */
  method FillChecksum(hdr: array<byte>)
    requires hdr.Length >= 12 && HeaderLength(hdr[..]) <= hdr.Length
    modifies hdr
    ensures HeaderLength(hdr[..]) == old(HeaderLength(hdr[..]))
    ensures hdr[..] == WithField(old(hdr[..]), CHECKSUM_FIELD,
                                 Checksum(0, Cleared(old(hdr[..]), CHECKSUM_FIELD)[..HeaderLength(hdr[..])]))
    ensures HeaderLength(hdr[..]) >= 12 ==> ChecksumValid(0, hdr[..HeaderLength(hdr[..])])
  {
    ghost var before := hdr[..];
    ghost var n := HeaderLength(before);
    ClearField(hdr, CHECKSUM_FIELD);
    assert hdr[0] == before[0];
    var c := HeaderCksum(hdr);
    StoreNative(hdr, CHECKSUM_FIELD, c);
    RestoredField(before, CHECKSUM_FIELD, Byteswap16(c));
    assert hdr[0] == before[0];
    if n >= 12 {
      SealedWithin(0, before, n, CHECKSUM_FIELD);
    }
  }

  /** `computeChecksum`: with the field cleared, add up in host order and store in host order.
      In the packet this is the big-endian checksum; the header is valid whenever its length
      covers the checksum field; nothing but octets 10 and 11 changes. */
  method ComputeChecksum(hdr: array<byte>)
    requires hdr.Length >= 12 && HeaderLength(hdr[..]) <= hdr.Length
    modifies hdr
    ensures HeaderLength(hdr[..]) == old(HeaderLength(hdr[..]))
    ensures hdr[..] == WithField(old(hdr[..]), CHECKSUM_FIELD,
                                 Checksum(0, Cleared(old(hdr[..]), CHECKSUM_FIELD)[..HeaderLength(hdr[..])]))
    ensures HeaderLength(hdr[..]) >= 12 ==> ChecksumValid(0, hdr[..HeaderLength(hdr[..])])
    ensures forall ihl | Begins(hdr[..], ihl) :: Balanced(WordSum(hdr[..][.. 4 * ihl]))
    ensures forall k | 0 <= k < hdr.Length && k != 10 && k != 11 :: hdr[k] == old(hdr[k])
  {
    ghost var before := hdr[..];
    FillChecksum(hdr);
    ValidForEveryLength(hdr[..]);
    OtherOctets(before, hdr[..]);
  }

  lemma ValidForEveryLength(d: seq<byte>)
    requires |d| >= 12 && HeaderLength(d) <= |d|
    requires HeaderLength(d) >= 12 ==> ChecksumValid(0, d[..HeaderLength(d)])
    ensures forall ihl | Begins(d, ihl) :: Balanced(WordSum(d[.. 4 * ihl]))
  {
    forall ihl | Begins(d, ihl)
      ensures Balanced(WordSum(d[.. 4 * ihl]))
    {
      ValidHeaderIff(d, ihl);
      LengthIs(d, ihl);
    }
  }
}
