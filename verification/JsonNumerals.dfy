/** Numbers.  A `Numeral` is written down without a reader: a sign, digits with at most one point,
    and an exponent.  `ScanNumeral` is what `strtod` does when it takes a whole text of number
    characters; it accepts exactly the texts of numerals. */
module JsonNumerals {
  import opened Basics
  import opened JsonValue

  predicate AllDigits(s: Bytes) {
    forall i :: 0 <= i < |s| ==> 0x30 <= s[i] <= 0x39
  }

  predicate IsSign(s: Bytes) {
    s == [] || s == [0x2b] || s == [0x2d]
  }

  function NatOf(s: Bytes): nat
    requires AllDigits(s)
  {
    if s == [] then 0
    else
      assert 0x30 <= s[|s| - 1];
      NatOf(s[..|s| - 1]) * 10 + (s[|s| - 1] - 0x30)
  }

  function Power10(n: nat): (r: real)
    ensures r > 0.0
  {
    if n == 0 then 1.0 else 10.0 * Power10(n - 1)
  }

  function Scale(x: real, exponent: int): real {
    if exponent >= 0 then x * Power10(exponent) else x / Power10(-exponent)
  }

  datatype Exponent = Exponent(letter: byte, sign: Bytes, digits: Bytes) {

    predicate Valid() {
      (letter == 0x65 || letter == 0x45) && IsSign(sign) && AllDigits(digits) && digits != []
    }

    function Text(): Bytes {
      [letter] + (sign + digits)
    }

    function Amount(): int
      requires Valid()
    {
      var n: int := NatOf(digits);
      if sign == [0x2d] then -n else n
    }
  }

  datatype Numeral = Numeral(sign: Bytes, whole: Bytes, fraction: Option<Bytes>, exponent: Option<Exponent>) {

    /** The digits behind the point. */
    function Decimals(): Bytes {
      if fraction.Some? then fraction.value else []
    }

    predicate Valid() {
      && IsSign(sign) && AllDigits(whole) && AllDigits(Decimals())
      && (whole != [] || Decimals() != [])
      && (exponent.Some? ==> exponent.value.Valid())
    }

    function Text(): Bytes {
      sign + (whole + (PointText(fraction) + ExponentText(exponent)))
    }

    /** All digits as one natural number, moved behind the point, as an exact real number. */
    function Amount(): real
      requires Valid()
    {
      assert AllDigits(whole + Decimals());
      var x := NatOf(whole + Decimals()) as real / Power10(|Decimals()|);
      var y := if exponent.Some? then Scale(x, exponent.value.Amount()) else x;
      if sign == [0x2d] then -y else y
    }
  }

  function PointText(fraction: Option<Bytes>): Bytes {
    if fraction.Some? then [0x2e] + fraction.value else []
  }

  function ExponentText(exponent: Option<Exponent>): Bytes {
    if exponent.Some? then exponent.value.Text() else []
  }

  // ---------------------------------------------------------------- scanning

  function DigitsEnd(s: Bytes): (q: nat)
    ensures q <= |s| && AllDigits(s[..q])
    ensures q < |s| ==> !IsDigit(s[q])
  {
    if s != [] && IsDigit(s[0]) then 1 + DigitsEnd(s[1..]) else 0
  }

  function ScanSign(s: Bytes): (Bytes, Bytes) {
    if s != [] && (s[0] == PLUS || s[0] == MINUS) then (s[..1], s[1..]) else ([], s)
  }

  function ScanDigits(s: Bytes): (Bytes, Bytes) {
    (s[..DigitsEnd(s)], s[DigitsEnd(s)..])
  }

  function ScanPoint(s: Bytes): (Option<Bytes>, Bytes) {
    if s != [] && s[0] == DOT then
      var (digits, rest) := ScanDigits(s[1..]);
      (Some(digits), rest)
    else (None, s)
  }

  /** The exponent that is the whole rest of the text, if there is a rest. */
  function ScanExponent(s: Bytes): Option<Option<Exponent>> {
    if s == [] then Some(None)
    else if s[0] != LOWER_E && s[0] != UPPER_E then None
    else
      var (sign, rest) := ScanSign(s[1..]);
      var (digits, end) := ScanDigits(rest);
      if digits == [] || end != [] then None else Some(Some(Exponent(s[0], sign, digits)))
  }

  function ScanNumeral(s: Bytes): Option<Numeral> {
    var (sign, s1) := ScanSign(s);
    var (whole, s2) := ScanDigits(s1);
    var (fraction, s3) := ScanPoint(s2);
    var exponent := ScanExponent(s3);
    if whole == [] && (fraction.None? || fraction.value == []) then None
    else if exponent.None? then None
    else Some(Numeral(sign, whole, fraction, exponent.value))
  }

  // ---------------------------------------------------------------- exactly the numerals

  lemma SignScanned(s: Bytes)
    ensures var (sign, rest) := ScanSign(s); IsSign(sign) && s == sign + rest
  {
  }

  lemma SignIsScanned(sign: Bytes, rest: Bytes)
    requires IsSign(sign)
    requires sign == [] && rest != [] ==> rest[0] != 0x2b && rest[0] != 0x2d
    ensures ScanSign(sign + rest) == (sign, rest)
  {
    var s := sign + rest;
    if sign == [] {
      assert s == rest;
    } else {
      assert s[..1] == sign && s[1..] == rest;
    }
  }

  lemma DigitsScanned(s: Bytes)
    ensures var (digits, rest) := ScanDigits(s); AllDigits(digits) && s == digits + rest
  {
  }

  lemma {:induction false} DigitsEndIs(digits: Bytes, rest: Bytes)
    requires AllDigits(digits)
    requires rest != [] ==> !IsDigit(rest[0])
    ensures DigitsEnd(digits + rest) == |digits|
    decreases |digits|
  {
    var s := digits + rest;
    if digits == [] {
      assert s == rest;
    } else {
      assert s[1..] == digits[1..] + rest;
      DigitsEndIs(digits[1..], rest);
    }
  }

  lemma DigitsAreScanned(digits: Bytes, rest: Bytes)
    requires AllDigits(digits)
    requires rest != [] ==> !IsDigit(rest[0])
    ensures ScanDigits(digits + rest) == (digits, rest)
  {
    DigitsEndIs(digits, rest);
    var s := digits + rest;
    assert s[..|digits|] == digits && s[|digits|..] == rest;
  }

  lemma PointScanned(s: Bytes)
    ensures var (fraction, rest) := ScanPoint(s);
            (fraction.Some? ==> AllDigits(fraction.value)) && s == PointText(fraction) + rest
  {
    if s != [] && s[0] == DOT {
      DigitsScanned(s[1..]);
      var (digits, rest) := ScanDigits(s[1..]);
      assert s == [0x2e] + s[1..];
      assert [0x2e] + (digits + rest) == ([0x2e] + digits) + rest;
    }
  }

  lemma PointIsScanned(fraction: Option<Bytes>, rest: Bytes)
    requires fraction.Some? ==> AllDigits(fraction.value)
    requires rest != [] ==> !IsDigit(rest[0]) && rest[0] != 0x2e
    ensures ScanPoint(PointText(fraction) + rest) == (fraction, rest)
  {
    var s := PointText(fraction) + rest;
    if fraction.Some? {
      assert s[1..] == fraction.value + rest;
      DigitsAreScanned(fraction.value, rest);
    } else {
      assert s == rest;
    }
  }

  lemma ExponentScanned(s: Bytes)
    requires ScanExponent(s).Some?
    ensures var e := ScanExponent(s).value; (e.Some? ==> e.value.Valid()) && s == ExponentText(e)
  {
    if s != [] {
      var (sign, rest) := ScanSign(s[1..]);
      var (digits, end) := ScanDigits(rest);
      SignScanned(s[1..]);
      DigitsScanned(rest);
      assert rest == digits;
      assert s == [s[0]] + (sign + digits);
    }
  }

  lemma ExponentIsScanned(e: Option<Exponent>)
    requires e.Some? ==> e.value.Valid()
    ensures ScanExponent(ExponentText(e)) == Some(e)
  {
    if e.Some? {
      var x, s := e.value, ExponentText(e);
      assert s[0] == x.letter && s[1..] == x.sign + x.digits;
      SignIsScanned(x.sign, x.digits);
      DigitsAreScanned(x.digits, []);
      assert x.digits + [] == x.digits;
    }
  }

  /** Whatever the scanner takes is a numeral, written out. */
  lemma ScannedIsNumeral(s: Bytes)
    requires ScanNumeral(s).Some?
    ensures ScanNumeral(s).value.Valid() && ScanNumeral(s).value.Text() == s
  {
    var (sign, s1) := ScanSign(s);
    var (whole, s2) := ScanDigits(s1);
    var (fraction, s3) := ScanPoint(s2);
    SignScanned(s);
    DigitsScanned(s1);
    PointScanned(s2);
    ExponentScanned(s3);
  }

  /** What follows the digits of a numeral is no digit. */
  lemma TailStarts(fraction: Option<Bytes>, exponent: Option<Exponent>)
    requires exponent.Some? ==> exponent.value.Valid()
    ensures var e := ExponentText(exponent);
            e != [] ==> !IsDigit(e[0]) && e[0] != 0x2e && e[0] != 0x2b && e[0] != 0x2d
    ensures var u := PointText(fraction) + ExponentText(exponent);
            u != [] ==> !IsDigit(u[0]) && u[0] != 0x2b && u[0] != 0x2d
  {
  }

  lemma NoSignAhead(n: Numeral)
    requires n.Valid()
    ensures var u := n.whole + (PointText(n.fraction) + ExponentText(n.exponent));
            u != [] && u[0] != 0x2b && u[0] != 0x2d
  {
    if n.whole == [] {
      TailStarts(n.fraction, n.exponent);
    }
  }

  /** Every numeral is taken, and recognized. */
  lemma NumeralIsScanned(n: Numeral)
    requires n.Valid()
    ensures ScanNumeral(n.Text()) == Some(n)
  {
    var e := ExponentText(n.exponent);
    var u := PointText(n.fraction) + e;
    TailStarts(n.fraction, n.exponent);
    NoSignAhead(n);
    SignIsScanned(n.sign, n.whole + u);
    DigitsAreScanned(n.whole, u);
    PointIsScanned(n.fraction, e);
    ExponentIsScanned(n.exponent);
  }

  /** The octets a number is collected from. */
  predicate NumberOctet(c: int) {
    0x30 <= c <= 0x39 || c == 0x2b || c == 0x2d || c == 0x2e || c == 0x65 || c == 0x45
  }

  predicate AllNumberOctets(s: Bytes) {
    forall i :: 0 <= i < |s| ==> NumberOctet(s[i])
  }

  lemma NumeralOctets(n: Numeral)
    requires n.Valid()
    ensures AllNumberOctets(n.Text()) && n.Text() != []
  {
    NoSignAhead(n);
    assert AllNumberOctets(PointText(n.fraction));
    assert AllNumberOctets(ExponentText(n.exponent)) by {
      if n.exponent.Some? {
        OctetsJoin(n.exponent.value.sign, n.exponent.value.digits);
        OctetsJoin([n.exponent.value.letter], n.exponent.value.sign + n.exponent.value.digits);
      }
    }
    OctetsJoin(PointText(n.fraction), ExponentText(n.exponent));
    OctetsJoin(n.whole, PointText(n.fraction) + ExponentText(n.exponent));
    OctetsJoin(n.sign, n.whole + (PointText(n.fraction) + ExponentText(n.exponent)));
  }

  lemma OctetsJoin(a: Bytes, b: Bytes)
    requires AllNumberOctets(a) && AllNumberOctets(b)
    ensures AllNumberOctets(a + b)
  {
  }

  /** `strtod` when it takes the whole string. */
  function Strtod(s: Bytes): Option<real> {
    var n := ScanNumeral(s);
    if n.Some? then
      ScannedIsNumeral(s);
      Some(n.value.Amount())
    else None
  }
}
