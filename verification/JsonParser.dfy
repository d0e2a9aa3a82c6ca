/** The picojson parser as it is written: a cursor with one character of push-back, and parsers
    that advance it in loops.  Every method is proved to do what `JsonGrammar` says at the
    position of the cursor. */
module JsonParser {
  import opened Basics
  import opened JsonValue
  import opened JsonNumerals
  import opened JsonGrammar

  function CountNewlines(t: Bytes): nat {
    if t == [] then 0 else CountNewlines(t[..|t| - 1]) + (if t[|t| - 1] == NEWLINE then 1 else 0)
  }

  /** The line of the last of the first `n` characters. */
  function LineOf(t: Bytes, n: nat): nat
    requires n <= |t|
  {
    1 + CountNewlines(t[..if n > 0 then n - 1 else 0])
  }

  class Input {
    const text: Bytes
    var cur: nat
    var lastCh: int
    var ungot: bool
    var line: nat

    constructor (text: Bytes)
      ensures Valid() && this.text == text && Pos() == 0 && !ungot
    {
      this.text := text;
      cur, lastCh, ungot, line := 0, -1, false, 1;
    }

    ghost predicate Valid()
      reads this
    {
      && cur <= |text|
      && (lastCh != -1 ==> cur > 0 && lastCh == text[cur - 1])
      && (lastCh == -1 ==> !ungot && (cur == 0 || cur == |text|))
      && line == LineOf(text, cur)
    }

    /** The index of the next character to be read. */
    ghost function Pos(): nat
      requires Valid()
      reads this
    {
      if ungot then cur - 1 else cur
    }

    method GetC() returns (ch: int)
      requires Valid()
      modifies this
      ensures Valid() && !ungot && ch == lastCh == CharAt(text, old(Pos()))
      ensures Pos() == if ch == -1 then old(Pos()) else old(Pos()) + 1
    {
      if ungot {
        ungot := false;
        return lastCh;
      }
      if cur == |text| {
        lastCh := -1;
        return -1;
      }
      if lastCh == NEWLINE {
        line := line + 1;
      }
      assert cur > 0 ==> text[..cur][..cur - 1] == text[..cur - 1];
      lastCh := text[cur];
      cur := cur + 1;
      return lastCh;
    }

    /** The assertion of the original, that nothing is pushed back already, is the precondition. */
    method UngetC()
      requires Valid() && (lastCh != -1 ==> !ungot)
      modifies this
      ensures Valid() && lastCh == old(lastCh)
      ensures Pos() == if lastCh == -1 then old(Pos()) else old(Pos()) - 1
      ensures ungot == (lastCh != -1)
    {
      if lastCh != -1 {
        assert !ungot;
        ungot := true;
      }
    }

    method SkipWs()
      requires Valid()
      modifies this
      ensures Valid() && Pos() == SkipSpace(text, old(Pos()))
    {
      while true
        invariant Valid() && SkipSpace(text, Pos()) == SkipSpace(text, old(Pos()))
        decreases |text| - Pos()
      {
        var ch := GetC();
        if !IsSpace(ch) {
          UngetC();
          break;
        }
      }
    }

    method Expect(expected: byte) returns (found: bool)
      requires Valid()
      modifies this
      ensures Valid() && (found, Pos()) == JsonGrammar.Expect(text, old(Pos()), expected)
      ensures if found then !ungot else cur == Peeked(text, Pos())
    {
      SkipWs();
      var ch := GetC();
      if ch != expected {
        UngetC();
        return false;
      }
      return true;
    }

    method Match(pattern: Bytes) returns (found: bool)
      requires Valid() && pattern != []
      modifies this
      ensures Valid() && (found, Pos()) == JsonGrammar.Match(text, old(Pos()), pattern)
      ensures if found then !ungot else cur == Peeked(text, Pos())
    {
      var i := 0;
      while i < |pattern|
        invariant 0 <= i <= |pattern| && Valid() && (i > 0 ==> !ungot)
        invariant JsonGrammar.Match(text, Pos(), pattern[i..]) == JsonGrammar.Match(text, old(Pos()), pattern)
      {
        var ch := GetC();
        if ch != pattern[i] {
          UngetC();
          return false;
        }
        i := i + 1;
      }
      return true;
    }
  }

  /** `_parse_quadhex`: four digits, or -1. */
  method ParseQuadHex(input: Input) returns (code: int)
    requires input.Valid()
    modifies input
    ensures input.Valid()
    ensures match HexDigits(input.text, old(input.Pos()), 4, 0)
            case Fail(at, read) => code == -1 && input.Pos() == at && input.cur == read
            case Ok(v, n) => code == v && input.Pos() == n && !input.ungot
  {
    code := 0;
    var i := 0;
    while i < 4
      invariant 0 <= i <= 4 && code >= 0 && input.Valid() && (i > 0 ==> !input.ungot)
      invariant HexDigits(input.text, input.Pos(), 4 - i, code) == HexDigits(input.text, old(input.Pos()), 4, 0)
    {
      var hex := input.GetC();
      if hex == -1 {
        return -1;
      }
      var h := HexValue(hex);
      if h == -1 {
        input.UngetC();
        return -1;
      }
      code := code * 16 + h;
      i := i + 1;
    }
  }

  /** The start of the second escape of a surrogate pair. */
  method ParseEscapeStart(input: Input) returns (ok: bool)
    requires input.Valid()
    modifies input
    ensures input.Valid() && (ok ==> !input.ungot)
    ensures var t, p := input.text, old(input.Pos());
            if CharAt(t, p) != BACKSLASH then !ok && input.Pos() == p && input.cur == Peeked(t, p)
            else if CharAt(t, p + 1) != LOWER_U then !ok && input.Pos() == p + 1 && input.cur == Peeked(t, p + 1)
            else ok && input.Pos() == p + 2
  {
    var ch := input.GetC();
    if ch == BACKSLASH {
      ch := input.GetC();
      if ch == LOWER_U {
        return true;
      }
    }
    input.UngetC();
    return false;
  }

  /** The first half of `_parse_codepoint`: one escape or a surrogate pair. */
  method ParseCode(input: Input) returns (ok: bool, code: int)
    requires input.Valid()
    modifies input
    ensures input.Valid()
    ensures match CodePoint(input.text, old(input.Pos()))
            case Fail(at, read) => !ok && input.Pos() == at && input.cur == read
            case Ok(c, n) => ok && code == c && input.Pos() == n && !input.ungot
  {
    code := ParseQuadHex(input);
    if code == -1 {
      return false, code;
    }
    if IsSurrogate(code) {
      if 0xdc00 <= code {
        return false, code;
      }
      var start := ParseEscapeStart(input);
      if !start {
        return false, code;
      }
      var second := ParseQuadHex(input);
      if !IsLow(second) {
        return false, code;
      }
      code := Combine(code, second);
    }
    return true, code;
  }

  /** The second half: the bytes to append. */
  method EncodeUtf8(code: nat) returns (bytes: Bytes)
    ensures bytes == Utf8(code)
  {
    bytes := [];
    if code < 0x80 {
      bytes := bytes + [Octet(code)];
    } else {
      if code < 0x800 {
        bytes := bytes + [Octet(0xc0 + code / 64)];
      } else {
        if code < 0x1_0000 {
          bytes := bytes + [Octet(0xe0 + code / 4096)];
        } else {
          bytes := bytes + [Octet(0xf0 + code / 0x4_0000)];
          bytes := bytes + [Octet(0x80 + code / 4096 % 64)];
        }
        bytes := bytes + [Octet(0x80 + code / 64 % 64)];
      }
      bytes := bytes + [Octet(0x80 + code % 64)];
    }
  }

  /** The switch over the character after a backslash. */
  method ParseEscape(input: Input) returns (ok: bool, bytes: Bytes)
    requires input.Valid()
    modifies input
    ensures input.Valid()
    ensures match Escape(input.text, old(input.Pos()))
            case Fail(at, read) => !ok && input.Pos() == at && input.cur == read
            case Ok(s, n) => ok && bytes == s && input.Pos() == n && !input.ungot
  {
    bytes := [];
    var ch := input.GetC();
    if ch == -1 {
      return false, bytes;
    }
    if ch == LOWER_U {
      var code;
      ok, code := ParseCode(input);
      if ok {
        bytes := EncodeUtf8(code);
      }
    } else {
      var letter := Unescape(ch);
      ok := letter.Some?;
      if ok {
        bytes := [letter.value];
      }
    }
  }

  /** `_parse_string` */
  method ParseStringBody(input: Input) returns (ok: bool, out: Bytes)
    requires input.Valid()
    modifies input
    ensures input.Valid()
    ensures match StringBody(input.text, old(input.Pos()), [])
            case Fail(at, read) => !ok && input.Pos() == at && input.cur == read
            case Ok(s, n) => ok && out == s && input.Pos() == n && !input.ungot
  {
    out := [];
    while true
      invariant input.Valid()
      invariant StringBody(input.text, input.Pos(), out) == StringBody(input.text, old(input.Pos()), [])
      decreases |input.text| - input.Pos()
    {
      var ch := input.GetC();
      if ch < SPACE {
        input.UngetC();
        return false, out;
      } else if ch == QUOTE {
        return true, out;
      } else if ch == BACKSLASH {
        var good, bytes := ParseEscape(input);
        if !good {
          return false, out;
        }
        out := out + bytes;
      } else {
        out := out + [ch];
      }
    }
    ok := false;
  }

  /** The characters of a number. */
  method CollectDigits(input: Input) returns (digits: Bytes)
    requires input.Valid()
    modifies input
    ensures var t, p, q := input.text, old(input.Pos()), NumberEnd(input.text, old(input.Pos()));
            input.Valid() && input.Pos() == q && digits == t[p..q] && input.cur == Peeked(t, q)
  {
    digits := [];
    ghost var p := input.Pos();
    while true
      invariant input.Valid() && p <= input.Pos() && digits == input.text[p..input.Pos()]
      invariant NumberEnd(input.text, input.Pos()) == NumberEnd(input.text, p)
      decreases |input.text| - input.Pos()
    {
      var ch := input.GetC();
      if IsNumberChar(ch) {
        digits := digits + [ch];
      } else {
        input.UngetC();
        break;
      }
    }
  }

  /** `_parse_number`; the collected characters go to `strtod`. */
  method ParseNumberBody(input: Input) returns (ok: bool, x: real)
    requires input.Valid()
    modifies input
    ensures input.Valid()
    ensures match Number(input.text, old(input.Pos()))
            case Fail(at, read) => !ok && input.Pos() == at && input.cur == read
            case Ok(v, n) => ok && x == v && input.Pos() == n && input.ungot == (n < |input.text|)
  {
    var digits := CollectDigits(input);
    var v := Strtod(digits);
    match v
    case None => return false, 0.0;
    case Some(y) => return true, y;
  }

  /** After a parsed value a character is pushed back only behind a number. */
  ghost predicate Parsed(input: Input, r: Res<Value>, ok: bool, v: Value)
    requires input.Valid()
    reads input
  {
    match r
    case Fail(at, read) => !ok && input.Pos() == at && input.cur == read
    case Ok(w, n) => ok && v == w && input.Pos() == n && input.ungot == (w.Num? && n < |input.text|)
  }

  method ParseKeyword(input: Input, rest: Bytes, word: Value) returns (ok: bool, v: Value)
    requires input.Valid() && rest != [] && !word.Num?
    modifies input
    ensures input.Valid() && Parsed(input, Keyword(input.text, old(input.Pos()), rest, word), ok, v)
  {
    ok := input.Match(rest);
    v := word;
  }

  method ParseStringValue(input: Input) returns (ok: bool, v: Value)
    requires input.Valid()
    modifies input
    ensures input.Valid() && Parsed(input, ParseString(input.text, old(input.Pos())), ok, v)
  {
    var s;
    ok, s := ParseStringBody(input);
    v := Str(s);
  }

  method ParseNumberValue(input: Input) returns (ok: bool, v: Value)
    requires input.Valid()
    modifies input
    ensures input.Valid() && Parsed(input, ParseNumber(input.text, old(input.Pos())), ok, v)
  {
    var x;
    ok, x := ParseNumberBody(input);
    v := Num(x);
  }

  /** `_parse` */
  method Parse(input: Input) returns (ok: bool, v: Value)
    requires input.Valid()
    modifies input
    ensures input.Valid() && Parsed(input, ParseValue(input.text, old(input.Pos())), ok, v)
    decreases |input.text| - input.Pos(), 1
  {
    input.SkipWs();
    ghost var q := input.Pos();
    var ch := input.GetC();
    if ch == OPEN_BRACKET {
      ok, v := ParseArrayTail(input);
    } else if ch == OPEN_BRACE {
      ok, v := ParseObjectTail(input);
    } else {
      ok, v := ParseScalarFrom(input, ch, q);
    }
  }

  /** The branches for a value that is not a container; `ch` has just been read. */
  method ParseScalarFrom(input: Input, ch: int, ghost q: nat) returns (ok: bool, v: Value)
    requires input.Valid() && !input.ungot && q <= |input.text| && ch == input.lastCh == CharAt(input.text, q)
    requires input.Pos() == if ch == -1 then q else q + 1
    modifies input
    ensures input.Valid() && Parsed(input, ParseScalar(input.text, q), ok, v)
  {
    if ch == LOWER_N {
      ok, v := ParseKeyword(input, NULL_TAIL, Null);
    } else if ch == LOWER_F {
      ok, v := ParseKeyword(input, FALSE_TAIL, Bool(false));
    } else if ch == LOWER_T {
      ok, v := ParseKeyword(input, TRUE_TAIL, Bool(true));
    } else if ch == QUOTE {
      ok, v := ParseStringValue(input);
    } else if IsDigit(ch) || ch == MINUS {
      input.UngetC();
      ok, v := ParseNumberValue(input);
    } else {
      input.UngetC();
      ok, v := false, Null;
    }
  }

  /** `_parse_array` with its do-while loop. */
  method ParseArrayTail(input: Input) returns (ok: bool, v: Value)
    requires input.Valid()
    modifies input
    ensures input.Valid() && Parsed(input, ParseArray(input.text, old(input.Pos())), ok, v)
    decreases |input.text| - input.Pos(), 3
  {
    var empty := input.Expect(CLOSE_BRACKET);
    if empty {
      return true, Arr([]);
    }
    var items: seq<Value> := [];
    var more := true;
    while more
      invariant input.Valid() && old(input.Pos()) <= input.Pos()
      invariant more ==> ParseItems(input.text, input.Pos(), items) == ParseArray(input.text, old(input.Pos()))
      invariant !more ==>
        var (closed, k) := Expect(input.text, input.Pos(), CLOSE_BRACKET);
        ParseArray(input.text, old(input.Pos())) == if closed then Ok(Arr(items), k) else Fail(k, Peeked(input.text, k))
      decreases more, |input.text| - input.Pos()
    {
      var good, item := Parse(input);
      if !good {
        return false, Arr(items);
      }
      items := items + [item];
      more := input.Expect(COMMA);
    }
    ok := input.Expect(CLOSE_BRACKET);
    v := Arr(items);
  }

  method ParseKeyOf(input: Input) returns (ok: bool, key: Bytes)
    requires input.Valid()
    modifies input
    ensures input.Valid()
    ensures match ParseKey(input.text, old(input.Pos()))
            case Fail(at, read) => !ok && input.Pos() == at && input.cur == read
            case Ok(s, n) => ok && key == s && input.Pos() == n
  {
    key := [];
    ok := input.Expect(QUOTE);
    if ok {
      ok, key := ParseStringBody(input);
      if ok {
        ok := input.Expect(COLON);
      }
    }
  }

  method ParseMemberOf(input: Input) returns (ok: bool, key: Bytes, item: Value)
    requires input.Valid()
    modifies input
    ensures input.Valid()
    ensures match ParseMember(input.text, old(input.Pos()))
            case Fail(at, read) => !ok && input.Pos() == at && input.cur == read
            case Ok(f, n) => ok && f == Field(key, item) && input.Pos() == n
    decreases |input.text| - input.Pos(), 2
  {
    item := Null;
    ok, key := ParseKeyOf(input);
    if ok {
      ok, item := Parse(input);
    }
  }

  /** `_parse_object` with its do-while loop. */
  method ParseObjectTail(input: Input) returns (ok: bool, v: Value)
    requires input.Valid()
    modifies input
    ensures input.Valid() && Parsed(input, ParseObject(input.text, old(input.Pos())), ok, v)
    decreases |input.text| - input.Pos(), 3
  {
    var empty := input.Expect(CLOSE_BRACE);
    if empty {
      return true, Obj([]);
    }
    var fields: seq<Field> := [];
    var more := true;
    while more
      invariant input.Valid() && old(input.Pos()) <= input.Pos()
      invariant more ==> ParseMembers(input.text, input.Pos(), fields) == ParseObject(input.text, old(input.Pos()))
      invariant !more ==>
        var (closed, k) := Expect(input.text, input.Pos(), CLOSE_BRACE);
        ParseObject(input.text, old(input.Pos())) == if closed then Ok(Obj(fields), k) else Fail(k, Peeked(input.text, k))
      decreases more, |input.text| - input.Pos()
    {
      var good, key, item := ParseMemberOf(input);
      if !good {
        return false, Obj(fields);
      }
      fields := Put(fields, key, item);
      more := input.Expect(COMMA);
    }
    ok := input.Expect(CLOSE_BRACE);
    v := Obj(fields);
  }

  /** The rest of a line, control characters left out, as the error message quotes it. */
  function Near(t: Bytes, p: nat): Bytes
    requires p <= |t|
    decreases |t| - p
  {
    var c := CharAt(t, p);
    if c == -1 || c == NEWLINE then []
    else if c >= SPACE then [t[p]] + Near(t, p + 1)
    else Near(t, p + 1)
  }

  /** Where the next line begins, or the end. */
  function AfterLine(t: Bytes, p: nat): (q: nat)
    requires p <= |t|
    ensures p <= q <= |t|
    decreases |t| - p
  {
    if p == |t| then p else if t[p] == NEWLINE then p + 1 else AfterLine(t, p + 1)
  }

  function WithoutControls(s: Bytes): Bytes {
    if s == [] then [] else (if s[0] < 0x20 then [] else [s[0]]) + WithoutControls(s[1..])
  }

  /** The line ends before its line feed, or with the text; that much is quoted, and the line feed
      is passed. */
  lemma {:induction false} LineIsQuoted(t: Bytes, p: nat) returns (end: nat)
    requires p <= |t|
    ensures p <= end <= |t| && (forall i :: p <= i < end ==> t[i] != 0x0a) && (end < |t| ==> t[end] == 0x0a)
    ensures Near(t, p) == WithoutControls(t[p..end]) && AfterLine(t, p) == if end < |t| then end + 1 else end
    decreases |t| - p
  {
    if p == |t| || t[p] == 0x0a {
      end := p;
    } else {
      end := LineIsQuoted(t, p + 1);
      assert t[p..end][1..] == t[p + 1 .. end];
    }
  }

  datatype Verdict = Accepted(value: Value, cursor: nat) | SyntaxError(line: nat, near: Bytes, cursor: nat)

  /** The rest of the line, for the error message. */
  method CollectLine(input: Input) returns (near: Bytes)
    requires input.Valid()
    modifies input
    ensures input.Valid() && near == Near(input.text, old(input.Pos()))
    ensures input.cur == AfterLine(input.text, old(input.Pos()))
  {
    near := [];
    ghost var at := input.Pos();
    while true
      invariant input.Valid()
      invariant near + Near(input.text, input.Pos()) == Near(input.text, at)
      invariant AfterLine(input.text, input.Pos()) == AfterLine(input.text, at)
      decreases |input.text| - input.Pos()
    {
      var ch := input.GetC();
      if ch == -1 || ch == NEWLINE {
        break;
      } else if ch >= SPACE {
        near := near + [ch];
      }
    }
  }

  /** What `parse` returns or reports for a text.  The iterator is one beyond the text of a number
      that does not end the input. */
  predicate IsVerdict(text: Bytes, r: Verdict) {
    match ParseValue(text, 0)
    case Ok(v, n) => r == Accepted(v, if v.Num? && n < |text| then n + 1 else n)
    case Fail(at, read) => r == SyntaxError(LineOf(text, read), Near(text, at), AfterLine(text, at))
  }

  /** `parse`: the value, or the parts of the error message, and the iterator it returns. */
  method ParseText(text: Bytes) returns (r: Verdict)
    ensures IsVerdict(text, r)
  {
    var input := new Input(text);
    var ok, v := Parse(input);
    if ok {
      return Accepted(v, input.cur);
    }
    var line := input.line;
    var near := CollectLine(input);
    return SyntaxError(line, near, input.cur);
  }

  // ---------------------------------------------------------------- the returned iterator

  /** The text begins with a number that something follows. */
  predicate NumberIsFollowed(text: Bytes) {
    var p := SkipSpace(text, 0);
    (IsDigit(CharAt(text, p)) || CharAt(text, p) == MINUS) && NumberEnd(text, p) < |text|
  }

  /** The iterator for an accepted text stands where the value ends if and only if the text does
      not begin with a number that something follows. */
  lemma IteratorStandsBehindValueIff(text: Bytes, r: Verdict)
    requires ParseValue(text, 0).Ok? && IsVerdict(text, r)
    ensures r.Accepted?
    ensures r.cursor == ParseValue(text, 0).next <==> !NumberIsFollowed(text)
  {
    OnlyNumbersAreNumbers(text, 0);
  }

  /** The first character decides whether the value is a number. */
  lemma OnlyNumbersAreNumbers(t: Bytes, p: nat)
    requires p <= |t| && ParseValue(t, p).Ok?
    ensures var q := SkipSpace(t, p);
            ParseValue(t, p).value.Num? <==> IsDigit(CharAt(t, q)) || CharAt(t, q) == MINUS
    ensures ParseValue(t, p).value.Num? ==> ParseValue(t, p).next == NumberEnd(t, SkipSpace(t, p))
  {
    var q := SkipSpace(t, p);
    if q < |t| {
      ArraysAndObjects(t, q + 1);
    }
  }

  lemma ArraysAndObjects(t: Bytes, p: nat)
    requires p <= |t|
    ensures ParseArray(t, p).Ok? ==> ParseArray(t, p).value.Arr?
    ensures ParseObject(t, p).Ok? ==> ParseObject(t, p).value.Obj?
  {
    var q := Expect(t, p, CLOSE_BRACKET).1;
    ItemsMakeArray(t, q, []);
    var m := Expect(t, p, CLOSE_BRACE).1;
    MembersMakeObject(t, m, []);
  }

  lemma {:induction false} ItemsMakeArray(t: Bytes, p: nat, acc: seq<Value>)
    requires p <= |t|
    ensures ParseItems(t, p, acc).Ok? ==> ParseItems(t, p, acc).value.Arr?
    decreases |t| - p
  {
    match ParseValue(t, p)
    case Fail(_, _) =>
    case Ok(v, n) =>
      var (more, m) := Expect(t, n, COMMA);
      if more {
        ItemsMakeArray(t, m, acc + [v]);
      }
  }

  lemma {:induction false} MembersMakeObject(t: Bytes, p: nat, acc: seq<Field>)
    requires p <= |t|
    ensures ParseMembers(t, p, acc).Ok? ==> ParseMembers(t, p, acc).value.Obj?
    decreases |t| - p
  {
    match ParseMember(t, p)
    case Fail(_, _) =>
    case Ok(f, n) =>
      var (more, m) := Expect(t, n, COMMA);
      if more {
        MembersMakeObject(t, m, Put(acc, f.key, f.value));
      }
  }
}
