/** Which string literals the parser accepts, and what bytes they stand for. */
module JsonStrings {
  import opened Basics
  import opened JsonValue
  import opened JsonGrammar
  import opened JsonText

  // ---------------------------------------------------------------- UTF-8

  predicate IsScalar(c: int) {
    0 <= c <= 0x10_ffff && !(0xd800 <= c < 0xe000)
  }

  predicate IsContinuation(b: int) {
    0x80 <= b < 0xc0
  }

  /** The first character of a UTF-8 text and its length in bytes, as section 3 of RFC 3629
      defines the encoding: no overlong forms, no surrogates, nothing above 10FFFF. */
  function DecodeUtf8(s: Bytes): Option<(nat, nat)> {
    var b0, b1, b2, b3 := CharAt(s, 0), CharAt(s, 1), CharAt(s, 2), CharAt(s, 3);
    if 0 <= b0 < 0x80 then Some((b0, 1))
    else if 0xc2 <= b0 < 0xe0 && IsContinuation(b1) then Some(((b0 - 0xc0) * 64 + (b1 - 0x80), 2))
    else if 0xe0 <= b0 < 0xf0 && IsContinuation(b1) && IsContinuation(b2) then
      var c := (b0 - 0xe0) * 4096 + (b1 - 0x80) * 64 + (b2 - 0x80);
      if c < 0x800 || IsSurrogate(c) then None else Some((c, 3))
    else if 0xf0 <= b0 < 0xf5 && IsContinuation(b1) && IsContinuation(b2) && IsContinuation(b3) then
      var c := (b0 - 0xf0) * 0x4_0000 + (b1 - 0x80) * 4096 + (b2 - 0x80) * 64 + (b3 - 0x80);
      if c < 0x1_0000 || c > 0x10_ffff then None else Some((c, 4))
    else None
  }

  lemma Digit(a: int, b: int)
    requires 0 <= b < 64
    ensures (a * 64 + b) / 64 == a && (a * 64 + b) % 64 == b
  {
  }

  /** The encoder on a code point given by its digits to the base 64. */
  lemma TwoBytes(a: int, b: int)
    requires 0 <= a < 32 && 0 <= b < 64 && a * 64 + b >= 0x80
    ensures Utf8(a * 64 + b) == [0xc0 + a, 0x80 + b]
  {
    Digit(a, b);
  }

  lemma ThreeBytes(a: int, b: int, d: int)
    requires 0 <= a < 16 && 0 <= b < 64 && 0 <= d < 64 && a * 4096 + b * 64 + d >= 0x800
    ensures Utf8(a * 4096 + b * 64 + d) == [0xe0 + a, 0x80 + b, 0x80 + d]
  {
    var c := a * 4096 + b * 64 + d;
    Digit(a * 64 + b, d);
    Digit(a, b);
    assert c / 64 == a * 64 + b && c % 64 == d;
    assert c / 4096 == a;
  }

  lemma FourBytes(a: int, b: int, d: int, e: int)
    requires 0 <= a < 8 && 0 <= b < 64 && 0 <= d < 64 && 0 <= e < 64
    requires a * 0x4_0000 + b * 4096 + d * 64 + e >= 0x1_0000
    ensures Utf8(a * 0x4_0000 + b * 4096 + d * 64 + e) == [0xf0 + a, 0x80 + b, 0x80 + d, 0x80 + e]
  {
    var c := a * 0x4_0000 + b * 4096 + d * 64 + e;
    Digit(a * 4096 + b * 64 + d, e);
    Digit(a * 64 + b, d);
    Digit(a, b);
    assert c / 64 == a * 4096 + b * 64 + d && c % 64 == e;
    assert c / 4096 == a * 64 + b;
    assert c / 0x4_0000 == a;
  }

  /** The decoder on bytes given by their digits. */
  lemma DecodeTwo(a: int, b: int, rest: Bytes)
    requires 2 <= a < 32 && 0 <= b < 64
    ensures DecodeUtf8([0xc0 + a, 0x80 + b] + rest) == Some((a * 64 + b, 2))
  {
    var s: Bytes := [0xc0 + a, 0x80 + b] + rest;
    assert CharAt(s, 0) == 0xc0 + a && CharAt(s, 1) == 0x80 + b;
  }

  lemma DecodeThree(a: int, b: int, d: int, rest: Bytes)
    requires 0 <= a < 16 && 0 <= b < 64 && 0 <= d < 64
    requires var c := a * 4096 + b * 64 + d; c >= 0x800 && !IsSurrogate(c)
    ensures DecodeUtf8([0xe0 + a, 0x80 + b, 0x80 + d] + rest) == Some((a * 4096 + b * 64 + d, 3))
  {
    var s: Bytes := [0xe0 + a, 0x80 + b, 0x80 + d] + rest;
    assert CharAt(s, 0) == 0xe0 + a && CharAt(s, 1) == 0x80 + b && CharAt(s, 2) == 0x80 + d;
  }

  lemma DecodeFour(a: int, b: int, d: int, e: int, rest: Bytes)
    requires 0 <= a < 5 && 0 <= b < 64 && 0 <= d < 64 && 0 <= e < 64
    requires 0x1_0000 <= a * 0x4_0000 + b * 4096 + d * 64 + e <= 0x10_ffff
    ensures DecodeUtf8([0xf0 + a, 0x80 + b, 0x80 + d, 0x80 + e] + rest)
         == Some((a * 0x4_0000 + b * 4096 + d * 64 + e, 4))
  {
    var s: Bytes := [0xf0 + a, 0x80 + b, 0x80 + d, 0x80 + e] + rest;
    assert CharAt(s, 0) == 0xf0 + a && CharAt(s, 1) == 0x80 + b;
    assert CharAt(s, 2) == 0x80 + d && CharAt(s, 3) == 0x80 + e;
  }

  lemma SixBitDigits(c: nat) returns (a: nat, b: nat, d: nat, e: nat)
    requires c <= 0x10_ffff
    ensures c == a * 0x4_0000 + b * 4096 + d * 64 + e && a < 5 && b < 64 && d < 64 && e < 64
  {
    var c1 := c / 64;
    var c2 := c1 / 64;
    a, b, d, e := c2 / 64, c2 % 64, c1 % 64, c % 64;
  }

  lemma Utf8RoundTrip(c: nat, rest: Bytes)
    requires IsScalar(c)
    ensures DecodeUtf8(Utf8(c) + rest) == Some((c, |Utf8(c)|))
  {
    var a, b, d, e := SixBitDigits(c);
    if c < 0x80 {
      assert CharAt(Utf8(c) + rest, 0) == c;
    } else if c < 0x800 {
      TwoBytes(d, e);
      DecodeTwo(d, e, rest);
    } else if c < 0x1_0000 {
      ThreeBytes(b, d, e);
      DecodeThree(b, d, e, rest);
    } else {
      FourBytes(a, b, d, e);
      DecodeFour(a, b, d, e, rest);
    }
  }

  lemma DecodedIsEncoded(s: Bytes)
    requires DecodeUtf8(s).Some?
    ensures var (c, n) := DecodeUtf8(s).value; IsScalar(c) && n <= |s| && s[..n] == Utf8(c)
  {
    var (c, n) := DecodeUtf8(s).value;
    var b0: int := s[0];
    if n == 2 {
      var b1: int := s[1];
      TwoBytes(b0 - 0xc0, b1 - 0x80);
    } else if n == 3 {
      DecodedThree(s);
    } else if n == 4 {
      DecodedFour(s);
    }
  }

  lemma DecodedThree(s: Bytes)
    requires DecodeUtf8(s).Some? && DecodeUtf8(s).value.1 == 3
    ensures IsScalar(DecodeUtf8(s).value.0) && 3 <= |s| && s[..3] == Utf8(DecodeUtf8(s).value.0)
  {
    var b0: int, b1: int, b2: int := s[0], s[1], s[2];
    ThreeBytes(b0 - 0xe0, b1 - 0x80, b2 - 0x80);
  }

  lemma DecodedFour(s: Bytes)
    requires DecodeUtf8(s).Some? && DecodeUtf8(s).value.1 == 4
    ensures IsScalar(DecodeUtf8(s).value.0) && 4 <= |s| && s[..4] == Utf8(DecodeUtf8(s).value.0)
  {
    var b0: int, b1: int, b2: int, b3: int := s[0], s[1], s[2], s[3];
    FourBytes(b0 - 0xf0, b1 - 0x80, b2 - 0x80, b3 - 0x80);
  }

  // ---------------------------------------------------------------- literals

  /** Four hexadecimal digits and their value. */
  predicate IsHex4(h: Bytes) {
    |h| == 4 && forall i :: 0 <= i < 4 ==> HexValue(h[i]) != -1
  }

  function HexNat(h: Bytes): nat
    requires IsHex4(h)
  {
    HexValue(h[0]) * 4096 + HexValue(h[1]) * 256 + HexValue(h[2]) * 16 + HexValue(h[3])
  }

  /** The value of a hexadecimal digit, upper or lower case. */
  const LOWER_HEX: Bytes := [0x30, 0x31, 0x32, 0x33, 0x34, 0x35, 0x36, 0x37, 0x38, 0x39, 0x61, 0x62, 0x63, 0x64, 0x65, 0x66]
  const UPPER_HEX: Bytes := [0x30, 0x31, 0x32, 0x33, 0x34, 0x35, 0x36, 0x37, 0x38, 0x39, 0x41, 0x42, 0x43, 0x44, 0x45, 0x46]

  lemma HexDigitsAre(c: byte)
    ensures HexValue(c) == -1 <==> c !in LOWER_HEX && c !in UPPER_HEX
    ensures forall h | 0 <= h < 16 :: HexValue(LOWER_HEX[h]) == h == HexValue(UPPER_HEX[h])
  {
    if HexValue(c) != -1 {
      assert c == LOWER_HEX[HexValue(c)] || c == UPPER_HEX[HexValue(c)];
    }
  }

  /** The short escapes of section 7 of RFC 8259. */
  function LetterMeaning(c: byte): Option<byte> {
    if c == 0x22 || c == 0x5c || c == 0x2f then Some(c)
    else if c == 0x62 then Some(0x08)
    else if c == 0x66 then Some(0x0c)
    else if c == 0x6e then Some(0x0a)
    else if c == 0x72 then Some(0x0d)
    else if c == 0x74 then Some(0x09)
    else None
  }

  lemma LettersAgree(c: byte)
    ensures Unescape(c) == LetterMeaning(c)
  {
  }

  /** The elements of a string literal (section 7 of RFC 8259): a raw byte, a one-letter escape,
      a `\u` escape of a scalar value, and a surrogate pair of `\u` escapes. */
  datatype Piece = Raw(b: byte) | Letter(c: byte) | Unit(hex: Bytes) | Pair(high: Bytes, low: Bytes) {

    predicate Valid() {
      match this
      case Raw(b) => b >= 0x20 && b != 0x22 && b != 0x5c
      case Letter(c) => LetterMeaning(c).Some?
      case Unit(hex) => IsHex4(hex) && !(0xd800 <= HexNat(hex) < 0xe000)
      case Pair(high, low) =>
        && IsHex4(high) && 0xd800 <= HexNat(high) < 0xdc00
        && IsHex4(low) && 0xdc00 <= HexNat(low) < 0xe000
    }

    function Text(): Bytes {
      match this
      case Raw(b) => [b]
      case Letter(c) => [BACKSLASH, c]
      case Unit(hex) => [BACKSLASH, LOWER_U] + hex
      case Pair(high, low) => [BACKSLASH, LOWER_U] + high + [BACKSLASH, LOWER_U] + low
    }

    function Meaning(): Bytes
      requires Valid()
    {
      match this
      case Raw(b) => [b]
      case Letter(c) => [LetterMeaning(c).value]
      case Unit(hex) => Utf8(HexNat(hex))
      case Pair(high, low) => Utf8(0x1_0000 + (HexNat(high) - 0xd800) * 0x400 + (HexNat(low) - 0xdc00))
    }
  }

  predicate AllValid(ps: seq<Piece>) {
    forall i :: 0 <= i < |ps| ==> ps[i].Valid()
  }

  function Texts(ps: seq<Piece>): Bytes {
    if ps == [] then [] else ps[0].Text() + Texts(ps[1..])
  }

  function Meanings(ps: seq<Piece>): Bytes
    requires AllValid(ps)
  {
    if ps == [] then [] else ps[0].Meaning() + Meanings(ps[1..])
  }

  /** Every escape stands for a scalar value, so what it adds is well-formed UTF-8. */
  lemma EscapeIsScalar(p: Piece, rest: Bytes)
    requires p.Valid() && (p.Unit? || p.Pair?)
    ensures DecodeUtf8(p.Meaning() + rest).Some?
  {
    if p.Unit? {
      Utf8RoundTrip(HexNat(p.hex), rest);
    } else {
      Utf8RoundTrip(0x1_0000 + (HexNat(p.high) - 0xd800) * 0x400 + (HexNat(p.low) - 0xdc00), rest);
    }
  }

  /** The parser reads four digits at `p` exactly when they are there. */
  lemma Hex4Read(t: Bytes, p: nat)
    requires p <= |t|
    ensures HexDigits(t, p, 4, 0).Ok? <==> p + 4 <= |t| && IsHex4(t[p .. p + 4])
    ensures HexDigits(t, p, 4, 0).Ok? ==> HexDigits(t, p, 4, 0) == Ok(HexNat(t[p .. p + 4]), p + 4)
  {
    if p + 4 <= |t| {
      var four := t[p .. p + 4];
      assert four[0] == t[p] && four[1] == t[p + 1] && four[2] == t[p + 2] && four[3] == t[p + 3];
    }
    HexUnfold(t, p, 4, 0);
    if HexValue(CharAt(t, p)) != -1 {
      var a := HexValue(t[p]);
      HexUnfold(t, p + 1, 3, a);
      if HexValue(CharAt(t, p + 1)) != -1 {
        var b := a * 16 + HexValue(t[p + 1]);
        HexUnfold(t, p + 2, 2, b);
        if HexValue(CharAt(t, p + 2)) != -1 {
          var c := b * 16 + HexValue(t[p + 2]);
          HexUnfold(t, p + 3, 1, c);
          if HexValue(CharAt(t, p + 3)) != -1 {
            HexUnfold(t, p + 4, 0, c * 16 + HexValue(t[p + 3]));
          }
        }
      }
    }
  }

  lemma HexUnfold(t: Bytes, p: nat, n: nat, acc: nat)
    requires p <= |t|
    ensures n == 0 ==> HexDigits(t, p, n, acc) == Ok(acc, p)
    ensures n > 0 && HexValue(CharAt(t, p)) == -1 ==> HexDigits(t, p, n, acc) == Fail(p, Peeked(t, p))
    ensures n > 0 && HexValue(CharAt(t, p)) != -1 ==>
              p < |t| && HexDigits(t, p, n, acc) == HexDigits(t, p + 1, n - 1, acc * 16 + HexValue(t[p]))
  {
  }

  /** The string parser at a position, with what it has read before. */
  function BodyAt(t: Bytes, p: nat, acc: Bytes): Res<Bytes>
    requires p <= |t|
  {
    StringBody(t, p, acc)
  }

  lemma ClosingQuote(t: Bytes, p: nat, acc: Bytes)
    requires At(t, p, [QUOTE])
    ensures BodyAt(t, p, acc) == Ok(acc, p + 1)
  {
    AtFirst(t, p, [QUOTE]);
  }

  /** A valid piece is read as its meaning. */
  lemma PieceIsRead(t: Bytes, p: nat, piece: Piece, acc: Bytes)
    requires piece.Valid() && At(t, p, piece.Text())
    ensures BodyAt(t, p, acc) == BodyAt(t, p + |piece.Text()|, acc + piece.Meaning())
  {
    match piece
    case Raw(b) => AtFirst(t, p, [b]);
    case Letter(c) => LetterIsRead(t, p, c, acc);
    case Unit(hex) => UnitIsRead(t, p, hex, acc);
    case Pair(high, low) =>
      AtByte(t, p, piece.Text(), 0);
      PairIsRead(t, p, high, low);
  }

  lemma LetterIsRead(t: Bytes, p: nat, c: byte, acc: Bytes)
    requires LetterMeaning(c).Some? && At(t, p, [BACKSLASH, c])
    ensures BodyAt(t, p, acc) == BodyAt(t, p + 2, acc + [LetterMeaning(c).value])
  {
    AtByte(t, p, [BACKSLASH, c], 0);
    AtByte(t, p, [BACKSLASH, c], 1);
    LettersAgree(c);
    assert Escape(t, p + 1) == Ok([LetterMeaning(c).value], p + 2);
  }

  lemma UnitIsRead(t: Bytes, p: nat, hex: Bytes, acc: Bytes)
    requires Unit(hex).Valid() && At(t, p, [BACKSLASH, LOWER_U] + hex)
    ensures BodyAt(t, p, acc) == BodyAt(t, p + 6, acc + Utf8(HexNat(hex)))
  {
    AtSplit(t, p, [BACKSLASH, LOWER_U], hex);
    AtByte(t, p, [BACKSLASH, LOWER_U], 0);
    AtByte(t, p, [BACKSLASH, LOWER_U], 1);
    Hex4Read(t, p + 2);
    assert Escape(t, p + 1) == Ok(Utf8(HexNat(hex)), p + 6);
  }

  /** What `CodePoint` makes of two escapes that are there. */
  lemma TwoEscapesRead(t: Bytes, p: nat)
    requires p + 10 <= |t| && t[p + 4] == BACKSLASH && t[p + 5] == LOWER_U
    requires IsHex4(t[p .. p + 4]) && IsSurrogate(HexNat(t[p .. p + 4])) && !IsLow(HexNat(t[p .. p + 4]))
    requires IsHex4(t[p + 6 .. p + 10]) && IsLow(HexNat(t[p + 6 .. p + 10]))
    ensures CodePoint(t, p) == Ok(Combine(HexNat(t[p .. p + 4]), HexNat(t[p + 6 .. p + 10])), p + 10)
  {
    Hex4Read(t, p);
    Hex4Read(t, p + 6);
  }

  lemma PairIsRead(t: Bytes, p: nat, high: Bytes, low: Bytes)
    requires Pair(high, low).Valid() && At(t, p, Pair(high, low).Text())
    ensures Escape(t, p + 1) == Ok(Pair(high, low).Meaning(), p + 12)
  {
    PairAt(t, p, high, low);
    TwoEscapesRead(t, p + 2);
    PairMeaning(high, low);
    assert Unescape(LOWER_U) == None && CharAt(t, p + 1) == LOWER_U;
  }

  lemma PairMeaning(high: Bytes, low: Bytes)
    requires Pair(high, low).Valid()
    ensures Pair(high, low).Meaning() == Utf8(Combine(HexNat(high), HexNat(low)))
  {
    CombineIsSum(HexNat(high), HexNat(low));
  }

  /** The ten bits that the parser cuts out of a low surrogate are its distance from the first one. */
  lemma CombineIsSum(high: nat, low: nat)
    requires IsSurrogate(high) && !IsLow(high) && IsLow(low)
    ensures Combine(high, low) == 0x1_0000 + (high - 0xd800) * 0x400 + (low - 0xdc00)
  {
    var x := low - 0xdc00;
    assert 0 <= x < 0x400;
    assert x % 0x400 == x;
  }

  /** Where the parts of a pair stand. */
  lemma PairAt(t: Bytes, p: nat, high: Bytes, low: Bytes)
    requires |high| == 4 && |low| == 4
    ensures At(t, p, Pair(high, low).Text()) <==>
              && p + 12 <= |t| && t[p] == BACKSLASH && t[p + 1] == LOWER_U && t[p + 2 .. p + 6] == high
              && t[p + 6] == BACKSLASH && t[p + 7] == LOWER_U && t[p + 8 .. p + 12] == low
  {
    var s := Pair(high, low).Text();
    assert |s| == 12;
    if p + 12 <= |t| {
      var u := t[p .. p + 12];
      assert u[0] == t[p] && u[1] == t[p + 1] && u[6] == t[p + 6] && u[7] == t[p + 7];
      assert u[2..6] == t[p + 2 .. p + 6] && u[8..12] == t[p + 8 .. p + 12];
      assert s[2..6] == high && s[8..12] == low;
      assert u == [u[0], u[1]] + u[2..6] + [u[6], u[7]] + u[8..12];
    }
  }

  /** A literal made of valid pieces is accepted and stands for the joined meanings.
      `r` is what the string parser makes of the text at `p`. */
  lemma {:induction false} LiteralIsAccepted(t: Bytes, p: nat, ps: seq<Piece>, acc: Bytes, r: Res<Bytes>)
    requires AllValid(ps) && At(t, p, Texts(ps) + [QUOTE]) && r == BodyAt(t, p, acc)
    ensures r == Ok(acc + Meanings(ps), p + |Texts(ps)| + 1)
    decreases |ps|
  {
    if ps == [] {
      assert Texts(ps) + [QUOTE] == [QUOTE];
      ClosingQuote(t, p, acc);
      assert acc + Meanings(ps) == acc;
    } else {
      var piece, rest := ps[0], ps[1..];
      PieceThere(t, p, piece, rest, ps);
      PieceIsRead(t, p, piece, acc);
      LiteralIsAccepted(t, p + |piece.Text()|, rest, acc + piece.Meaning(), r);
      Associate(acc, piece.Meaning(), Meanings(rest), Meanings(ps));
    }
  }

  lemma PieceThere(t: Bytes, p: nat, piece: Piece, rest: seq<Piece>, ps: seq<Piece>)
    requires AllValid(ps) && ps == [piece] + rest && At(t, p, Texts(ps) + [QUOTE])
    ensures AllValid(rest) && piece.Valid() && At(t, p, piece.Text())
    ensures At(t, p + |piece.Text()|, Texts(rest) + [QUOTE])
    ensures |Texts(ps)| == |piece.Text()| + |Texts(rest)| && Meanings(ps) == piece.Meaning() + Meanings(rest)
  {
    assert rest == ps[1..] && piece == ps[0];
    PiecesCons(piece, rest, ps);
    AtSplitOfThree(t, p, piece.Text(), Texts(rest), Texts(ps), [QUOTE]);
  }

  /** A `\u` escape the parser accepts is a valid piece. */
  lemma UnitIsPiece(t: Bytes, p: nat) returns (piece: Piece)
    requires p + 2 <= |t| && t[p] == BACKSLASH && t[p + 1] == LOWER_U && CodePoint(t, p + 2).Ok?
    ensures piece.Valid() && At(t, p, piece.Text())
    ensures Escape(t, p + 1) == Ok(piece.Meaning(), p + |piece.Text()|)
  {
    assert Unescape(LOWER_U) == None && CharAt(t, p + 1) == LOWER_U;
    assert Escape(t, p + 1) == Ok(Utf8(CodePoint(t, p + 2).value), CodePoint(t, p + 2).next);
    Hex4Read(t, p + 2);
    var high := t[p + 2 .. p + 6];
    if !IsSurrogate(HexNat(high)) {
      piece := Unit(high);
      assert CodePoint(t, p + 2) == Ok(HexNat(high), p + 6);
      assert t[p .. p + 6] == [t[p], t[p + 1]] + t[p + 2 .. p + 6];
    } else {
      piece := PairIsPiece(t, p);
    }
  }

  lemma PairIsPiece(t: Bytes, p: nat) returns (piece: Piece)
    requires p + 6 <= |t| && t[p] == BACKSLASH && t[p + 1] == LOWER_U && CodePoint(t, p + 2).Ok?
    requires IsHex4(t[p + 2 .. p + 6]) && IsSurrogate(HexNat(t[p + 2 .. p + 6]))
    ensures piece.Valid() && At(t, p, piece.Text()) && |piece.Text()| == 12
    ensures CodePoint(t, p + 2).next == p + 12 && Utf8(CodePoint(t, p + 2).value) == piece.Meaning()
  {
    Hex4Read(t, p + 2);
    Hex4Read(t, p + 8);
    var high, low := t[p + 2 .. p + 6], t[p + 8 .. p + 12];
    piece := Pair(high, low);
    PairAt(t, p, high, low);
    TwoEscapesRead(t, p + 2);
    PairMeaning(high, low);
  }

  /** An escape the parser accepts is a valid piece. */
  lemma EscapeIsPiece(t: Bytes, p: nat) returns (piece: Piece)
    requires p < |t| && t[p] == BACKSLASH && Escape(t, p + 1).Ok?
    ensures piece.Valid() && At(t, p, piece.Text())
    ensures Escape(t, p + 1) == Ok(piece.Meaning(), p + |piece.Text()|)
  {
    var d := CharAt(t, p + 1);
    if Unescape(d).Some? {
      piece := Letter(t[p + 1]);
      assert t[p .. p + 2] == piece.Text();
    } else {
      piece := UnitIsPiece(t, p);
    }
  }

  /** The first piece of an accepted literal. */
  lemma FirstPiece(t: Bytes, p: nat, acc: Bytes) returns (piece: Piece)
    requires p <= |t| && CharAt(t, p) != QUOTE && BodyAt(t, p, acc).Ok?
    ensures piece.Valid() && At(t, p, piece.Text()) && piece.Text() != []
    ensures BodyAt(t, p, acc) == BodyAt(t, p + |piece.Text()|, acc + piece.Meaning())
  {
    if CharAt(t, p) == BACKSLASH {
      piece := EscapeIsPiece(t, p);
    } else {
      piece := Raw(t[p]);
      assert t[p .. p + 1] == piece.Text();
    }
  }

  lemma PiecesCons(piece: Piece, rest: seq<Piece>, ps: seq<Piece>)
    requires piece.Valid() && AllValid(rest) && ps == [piece] + rest
    ensures AllValid(ps) && Texts(ps) == piece.Text() + Texts(rest)
    ensures Meanings(ps) == piece.Meaning() + Meanings(rest)
  {
    assert ps[1..] == rest;
  }

  /** A literal that goes on behind `piece` is a literal from `piece` on. */
  lemma JoinPieces(t: Bytes, p: nat, acc: Bytes, piece: Piece, rest: seq<Piece>, r: Res<Bytes>, ps: seq<Piece>)
    requires piece.Valid() && AllValid(rest) && ps == [piece] + rest
    requires At(t, p, piece.Text()) && At(t, p + |piece.Text()|, Texts(rest) + [QUOTE])
    requires r == Ok(acc + piece.Meaning() + Meanings(rest), p + |piece.Text()| + |Texts(rest)| + 1)
    ensures AllValid(ps) && At(t, p, Texts(ps) + [QUOTE])
    ensures r == Ok(acc + Meanings(ps), p + |Texts(ps)| + 1)
  {
    PiecesCons(piece, rest, ps);
    AtJoinOfThree(t, p, piece.Text(), Texts(rest), Texts(ps), [QUOTE]);
    Associate(acc, piece.Meaning(), Meanings(rest), Meanings(ps));
  }

  lemma EmptyLiteral(t: Bytes, p: nat, acc: Bytes, r: Res<Bytes>)
    requires p <= |t| && CharAt(t, p) == QUOTE && r == BodyAt(t, p, acc)
    ensures At(t, p, Texts([]) + [QUOTE]) && r == Ok(acc + Meanings([]), p + |Texts([])| + 1)
  {
    assert Texts([]) + [QUOTE] == [QUOTE] == t[p .. p + 1];
    ClosingQuote(t, p, acc);
    assert acc + Meanings([]) == acc;
  }

  /** Whatever literal the parser accepts is made of valid pieces, and the result is the joined
      meanings.  `r` is what the string parser makes of the text at `p`. */
  lemma {:induction false} AcceptedIsLiteral(t: Bytes, p: nat, acc: Bytes, r: Res<Bytes>) returns (ps: seq<Piece>)
    requires p <= |t| && r == BodyAt(t, p, acc) && r.Ok?
    ensures AllValid(ps) && At(t, p, Texts(ps) + [QUOTE])
    ensures r == Ok(acc + Meanings(ps), p + |Texts(ps)| + 1)
    decreases |t| - p
  {
    if CharAt(t, p) == QUOTE {
      ps := [];
      EmptyLiteral(t, p, acc, r);
    } else {
      var piece := FirstPiece(t, p, acc);
      var rest := AcceptedIsLiteral(t, p + |piece.Text()|, acc + piece.Meaning(), r);
      ps := [piece] + rest;
      JoinPieces(t, p, acc, piece, rest, r, ps);
    }
  }

  /** A surrogate that is not the first half of a pair, or whose second half is missing, makes the
      literal unacceptable. */
  lemma IllPairedIsRejected(t: Bytes, p: nat, acc: Bytes)
    requires p + 6 <= |t| && t[p] == BACKSLASH && t[p + 1] == LOWER_U
    requires IsHex4(t[p + 2 .. p + 6]) && IsSurrogate(HexNat(t[p + 2 .. p + 6]))
    ensures StringBody(t, p, acc).Ok? ==>
              && !IsLow(HexNat(t[p + 2 .. p + 6]))
              && p + 12 <= |t| && t[p + 6] == BACKSLASH && t[p + 7] == LOWER_U
              && IsHex4(t[p + 8 .. p + 12]) && IsLow(HexNat(t[p + 8 .. p + 12]))
  {
    Hex4Read(t, p + 2);
    if p + 8 <= |t| {
      Hex4Read(t, p + 8);
    }
  }
}
