/** What the picojson parser does to a text, as functions of a position.  `Fail(at, read)` gives
    the position at which the parser stopped and how many characters it had read by then: one
    more than the position when the character there was pushed back. */
module JsonGrammar {
  import opened Basics
  import opened JsonValue
  import opened JsonNumerals

  datatype Res<+T> = Fail(at: nat, read: nat) | Ok(value: T, next: nat)

  predicate Within<T>(r: Res<T>, from: nat, to: nat) {
    match r
    case Fail(at, read) => from <= at <= read <= to && read <= at + 1
    case Ok(_, n) => from <= n <= to
  }

  /** Reading at `p` and pushing back, which does nothing at the end. */
  function Peeked(t: Bytes, p: nat): nat {
    if p < |t| then p + 1 else p
  }

  /** The character at `p`, or -1 at the end. */
  function CharAt(t: Bytes, p: nat): int {
    if p < |t| then t[p] else -1
  }

  predicate IsSpace(c: int) {
    c == SPACE || c == TAB || c == NEWLINE || c == RETURN
  }

  function SkipSpace(t: Bytes, p: nat): (q: nat)
    requires p <= |t|
    ensures p <= q <= |t| && !IsSpace(CharAt(t, q))
    decreases |t| - p
  {
    if IsSpace(CharAt(t, p)) then SkipSpace(t, p + 1) else p
  }

  /** `expect`: skip white space, then take `c` if it is there. */
  function Expect(t: Bytes, p: nat, c: byte): (r: (bool, nat))
    requires p <= |t|
    ensures p <= r.1 <= |t| && (r.0 ==> p < r.1)
  {
    var q := SkipSpace(t, p);
    if CharAt(t, q) == c then (true, q + 1) else (false, q)
  }

  /** `match`: take the characters of `pattern` as far as they are there. */
  function Match(t: Bytes, p: nat, pattern: Bytes): (r: (bool, nat))
    requires p <= |t|
    ensures p <= r.1 <= |t|
    decreases |pattern|
  {
    if pattern == [] then (true, p)
    else if CharAt(t, p) == pattern[0] then Match(t, p + 1, pattern[1..])
    else (false, p)
  }

  // ---------------------------------------------------------------- strings

  function HexValue(c: int): (h: int)
    ensures -1 <= h < 16
  {
    if 0x30 <= c <= 0x39 then c - 0x30
    else if 0x41 <= c <= 0x46 then c - (0x41 - 0xa)
    else if 0x61 <= c <= 0x66 then c - (0x61 - 0xa)
    else -1
  }

  /** `n` more hexadecimal digits after the value `acc`. */
  function HexDigits(t: Bytes, p: nat, n: nat, acc: nat): (r: Res<nat>)
    requires p <= |t|
    ensures Within(r, p, |t|)
    ensures r.Ok? ==> r.next == p + n
    decreases n
  {
    if n == 0 then Ok(acc, p)
    else if HexValue(CharAt(t, p)) == -1 then Fail(p, Peeked(t, p))
    else HexDigits(t, p + 1, n - 1, acc * 16 + HexValue(CharAt(t, p)))
  }

  predicate IsSurrogate(c: int) { 0xd800 <= c <= 0xdfff }

  predicate IsLow(c: int) { 0xdc00 <= c <= 0xdfff }

  /** The scalar value of a surrogate pair. */
  function Combine(high: nat, low: nat): nat
    requires IsSurrogate(high) && !IsLow(high) && IsLow(low)
  {
    (high - 0xd800) * 0x400 + (low - 0xdc00) % 0x400 + 0x1_0000
  }

  function Octet(n: int): byte {
    n % 256
  }

  /** The bytes `_parse_codepoint` appends for a code point. */
  function Utf8(c: nat): Bytes {
    if c < 0x80 then [Octet(c)]
    else if c < 0x800 then [Octet(0xc0 + c / 64), Octet(0x80 + c % 64)]
    else if c < 0x1_0000 then [Octet(0xe0 + c / 4096), Octet(0x80 + c / 64 % 64), Octet(0x80 + c % 64)]
    else [Octet(0xf0 + c / 0x4_0000), Octet(0x80 + c / 4096 % 64), Octet(0x80 + c / 64 % 64), Octet(0x80 + c % 64)]
  }

  /** After `\u`: the code point, one or two escapes long. */
  function CodePoint(t: Bytes, p: nat): (r: Res<nat>)
    requires p <= |t|
    ensures Within(r, p, |t|)
    ensures r.Ok? ==> p < r.next
  {
    match HexDigits(t, p, 4, 0)
    case Fail(at, read) => Fail(at, read)
    case Ok(high, q) =>
      if !IsSurrogate(high) then Ok(high, q)
      else if IsLow(high) then Fail(q, q)
      else if CharAt(t, q) != BACKSLASH then Fail(q, Peeked(t, q))
      else if CharAt(t, q + 1) != LOWER_U then Fail(q + 1, Peeked(t, q + 1))
      else
        match HexDigits(t, q + 2, 4, 0)
        case Fail(at, read) => Fail(at, read)
        case Ok(low, n) => if IsLow(low) then Ok(Combine(high, low), n) else Fail(n, n)
  }

  /** What a one-letter escape stands for. */
  function Unescape(c: int): Option<byte> {
    if c == QUOTE then Some(QUOTE)
    else if c == BACKSLASH then Some(BACKSLASH)
    else if c == SLASH then Some(SLASH)
    else if c == 0x62 then Some(0x08)
    else if c == LOWER_F then Some(0x0c)
    else if c == LOWER_N then Some(NEWLINE)
    else if c == 0x72 then Some(RETURN)
    else if c == LOWER_T then Some(TAB)
    else None
  }

  /** The bytes an escape sequence stands for, after its backslash. */
  function Escape(t: Bytes, p: nat): (r: Res<Bytes>)
    requires p <= |t|
    ensures Within(r, p, |t|)
  {
    var d := CharAt(t, p);
    if d == -1 then Fail(p, p)
    else if Unescape(d).Some? then Ok([Unescape(d).value], p + 1)
    else if d != LOWER_U then Fail(p + 1, p + 1)
    else
      match CodePoint(t, p + 1)
      case Fail(at, read) => Fail(at, read)
      case Ok(u, n) => Ok(Utf8(u), n)
  }

  /** The rest of a string literal after its opening quote; `acc` is what was read so far. */
  function StringBody(t: Bytes, p: nat, acc: Bytes): (r: Res<Bytes>)
    requires p <= |t|
    ensures Within(r, p, |t|)
    ensures r.Ok? ==> p < r.next
    decreases |t| - p
  {
    var c := CharAt(t, p);
    if c < SPACE then Fail(p, Peeked(t, p))
    else if c == QUOTE then Ok(acc, p + 1)
    else if c != BACKSLASH then StringBody(t, p + 1, acc + [t[p]])
    else
      match Escape(t, p + 1)
      case Fail(at, read) => Fail(at, read)
      case Ok(bytes, n) => StringBody(t, n, acc + bytes)
  }

  // ---------------------------------------------------------------- numbers

  predicate IsNumberChar(c: int) {
    IsDigit(c) || c == PLUS || c == MINUS || c == DOT || c == LOWER_E || c == UPPER_E
  }

  function NumberEnd(t: Bytes, p: nat): (q: nat)
    requires p <= |t|
    ensures p <= q <= |t| && !IsNumberChar(CharAt(t, q))
    ensures forall i :: p <= i < q ==> IsNumberChar(t[i])
    decreases |t| - p
  {
    if IsNumberChar(CharAt(t, p)) then NumberEnd(t, p + 1) else p
  }

  function Number(t: Bytes, p: nat): (r: Res<real>)
    requires p <= |t|
    ensures Within(r, p, |t|)
    ensures IsNumberChar(CharAt(t, p)) ==> p < (if r.Ok? then r.next else r.at)
  {
    var q := NumberEnd(t, p);
    match Strtod(t[p..q])
    case None => Fail(q, Peeked(t, q))
    case Some(x) => Ok(x, q)
  }

  // ---------------------------------------------------------------- values

  function Keyword(t: Bytes, p: nat, rest: Bytes, v: Value): (r: Res<Value>)
    requires p <= |t|
    ensures Within(r, p, |t|)
  {
    var (ok, q) := Match(t, p, rest);
    if ok then Ok(v, q) else Fail(q, Peeked(t, q))
  }

  function ParseString(t: Bytes, p: nat): (r: Res<Value>)
    requires p <= |t|
    ensures Within(r, p, |t|)
  {
    match StringBody(t, p, [])
    case Fail(at, read) => Fail(at, read)
    case Ok(s, n) => Ok(Str(s), n)
  }

  function ParseNumber(t: Bytes, p: nat): (r: Res<Value>)
    requires p <= |t|
    ensures Within(r, p, |t|)
    ensures IsNumberChar(CharAt(t, p)) && r.Ok? ==> p < r.next
  {
    match Number(t, p)
    case Fail(at, read) => Fail(at, read)
    case Ok(x, n) => Ok(Num(x), n)
  }

  /** The branches of `_parse` that are not containers, at the first character. */
  function ParseScalar(t: Bytes, q: nat): (r: Res<Value>)
    requires q <= |t|
    ensures Within(r, q, |t|)
    ensures r.Ok? ==> q < r.next
  {
    var c := CharAt(t, q);
    if c == LOWER_N then Keyword(t, q + 1, NULL_TAIL, Null)
    else if c == LOWER_F then Keyword(t, q + 1, FALSE_TAIL, Bool(false))
    else if c == LOWER_T then Keyword(t, q + 1, TRUE_TAIL, Bool(true))
    else if c == QUOTE then ParseString(t, q + 1)
    else if IsDigit(c) || c == MINUS then ParseNumber(t, q)
    else Fail(q, Peeked(t, q))
  }

  /** `_parse` */
  function ParseValue(t: Bytes, p: nat): (r: Res<Value>)
    requires p <= |t|
    ensures Within(r, p, |t|)
    ensures r.Ok? ==> p < r.next
    decreases |t| - p, 1
  {
    var q := SkipSpace(t, p);
    var c := CharAt(t, q);
    if c == OPEN_BRACKET then ParseArray(t, q + 1)
    else if c == OPEN_BRACE then ParseObject(t, q + 1)
    else ParseScalar(t, q)
  }

  /** `_parse_array`, after the opening bracket. */
  function ParseArray(t: Bytes, p: nat): (r: Res<Value>)
    requires p <= |t|
    ensures Within(r, p, |t|)
    decreases |t| - p, 3
  {
    var (empty, q) := Expect(t, p, CLOSE_BRACKET);
    if empty then Ok(Arr([]), q) else ParseItems(t, q, [])
  }

  /** The items from here on; `acc` holds the ones before. */
  function ParseItems(t: Bytes, p: nat, acc: seq<Value>): (r: Res<Value>)
    requires p <= |t|
    ensures Within(r, p, |t|)
    decreases |t| - p, 2
  {
    match ParseValue(t, p)
    case Fail(at, read) => Fail(at, read)
    case Ok(v, n) => AfterItem(t, n, acc + [v])
  }

  /** Behind an item: `items` are those read so far. */
  function AfterItem(t: Bytes, n: nat, items: seq<Value>): (r: Res<Value>)
    requires n <= |t|
    ensures Within(r, n, |t|)
    decreases |t| - n, 0
  {
    var (more, m) := Expect(t, n, COMMA);
    if more then ParseItems(t, m, items)
    else
      var (closed, k) := Expect(t, m, CLOSE_BRACKET);
      if closed then Ok(Arr(items), k) else Fail(k, Peeked(t, k))
  }

  /** The key of a member and its colon. */
  function ParseKey(t: Bytes, p: nat): (r: Res<Bytes>)
    requires p <= |t|
    ensures Within(r, p, |t|)
    ensures r.Ok? ==> p < r.next
  {
    var (quoted, q) := Expect(t, p, QUOTE);
    if !quoted then Fail(q, Peeked(t, q))
    else
      match StringBody(t, q, [])
      case Fail(at, read) => Fail(at, read)
      case Ok(key, n) =>
        var (colon, m) := Expect(t, n, COLON);
        if colon then Ok(key, m) else Fail(m, Peeked(t, m))
  }

  /** `_parse_object`, after the opening brace. */
  function ParseObject(t: Bytes, p: nat): (r: Res<Value>)
    requires p <= |t|
    ensures Within(r, p, |t|)
    decreases |t| - p, 4
  {
    var (empty, q) := Expect(t, p, CLOSE_BRACE);
    if empty then Ok(Obj([]), q) else ParseMembers(t, q, [])
  }

  /** The members from here on; `acc` is the map filled by the ones before. */
  function ParseMembers(t: Bytes, p: nat, acc: seq<Field>): (r: Res<Value>)
    requires p <= |t|
    ensures Within(r, p, |t|)
    decreases |t| - p, 3
  {
    match ParseMember(t, p)
    case Fail(at, read) => Fail(at, read)
    case Ok(f, n) => AfterMember(t, n, Put(acc, f.key, f.value))
  }

  /** Behind a member: `fields` is the map filled so far. */
  function AfterMember(t: Bytes, n: nat, fields: seq<Field>): (r: Res<Value>)
    requires n <= |t|
    ensures Within(r, n, |t|)
    decreases |t| - n, 0
  {
    var (more, m) := Expect(t, n, COMMA);
    if more then ParseMembers(t, m, fields)
    else
      var (closed, k) := Expect(t, m, CLOSE_BRACE);
      if closed then Ok(Obj(fields), k) else Fail(k, Peeked(t, k))
  }

  /** A key and its value. */
  function ParseMember(t: Bytes, p: nat): (r: Res<Field>)
    requires p <= |t|
    ensures Within(r, p, |t|)
    ensures r.Ok? ==> p < r.next
    decreases |t| - p, 2
  {
    match ParseKey(t, p)
    case Fail(at, read) => Fail(at, read)
    case Ok(key, q) =>
      match ParseValue(t, q)
      case Fail(at, read) => Fail(at, read)
      case Ok(v, n) => Ok(Field(key, v), n)
  }
}
