/** The picojson serializer: what text a value is written as, and the methods that write it
    through an advancing output. */
module JsonSerializer {
  import opened Basics
  import opened JsonValue

  const LIMIT: int := 0x20_0000_0000_0000

  /** The numbers the serializer prints without a fraction. */
  predicate PlainInteger(x: real) {
    x.Floor as real == x && -LIMIT < x.Floor < LIMIT
  }

  /** All numbers in the tree are such numbers. */
  predicate Printable(v: Value) {
    match v
    case Num(x) => PlainInteger(x)
    case Arr(items) => forall i :: 0 <= i < |items| ==> Printable(items[i])
    case Obj(fields) => forall i :: 0 <= i < |fields| ==> Printable(fields[i].value)
    case _ => true
  }

  function Digits(n: nat): (s: Bytes)
    ensures s != [] && forall i :: 0 <= i < |s| ==> IsDigit(s[i])
  {
    if n < 10 then [ZERO + n] else Digits(n / 10) + [ZERO + n % 10]
  }

  function Decimal(n: int): Bytes {
    if n < 0 then [MINUS] + Digits(-n) else Digits(n)
  }

  function HexDigit(h: int): byte
    requires 0 <= h < 16
  {
    if h < 10 then ZERO + h else 0x61 + (h - 10)
  }

  /** The text of one byte of a string. */
  function EscapeByte(b: byte): Bytes {
    if b == QUOTE then [BACKSLASH, QUOTE]
    else if b == BACKSLASH then [BACKSLASH, BACKSLASH]
    else if b == SLASH then [BACKSLASH, SLASH]
    else if b == 0x08 then [BACKSLASH, 0x62]
    else if b == 0x0c then [BACKSLASH, LOWER_F]
    else if b == NEWLINE then [BACKSLASH, LOWER_N]
    else if b == RETURN then [BACKSLASH, 0x72]
    else if b == TAB then [BACKSLASH, LOWER_T]
    else if b < SPACE || b == DELETE then
      [BACKSLASH, LOWER_U, ZERO, ZERO, HexDigit(b / 16), HexDigit(b % 16)]
    else [b]
  }

  function EscapeAll(s: Bytes): Bytes {
    if s == [] then [] else EscapeByte(s[0]) + EscapeAll(s[1..])
  }

  function Quoted(s: Bytes): Bytes {
    [QUOTE] + EscapeAll(s) + [QUOTE]
  }

  /** `serialize` */
  function Serialize(v: Value): Bytes
    requires Printable(v)
    decreases v, 1
  {
    match v
    case Null => [LOWER_N] + NULL_TAIL
    case Bool(true) => [LOWER_T] + TRUE_TAIL
    case Bool(false) => [LOWER_F] + FALSE_TAIL
    case Num(x) => Decimal(x.Floor)
    case Str(s) => Quoted(s)
    case Arr(items) =>
      [OPEN_BRACKET] + (if items == [] then [CLOSE_BRACKET] else Serialize(items[0]) + ItemsTail(items[1..]))
    case Obj(fields) =>
      [OPEN_BRACE] + (if fields == [] then [CLOSE_BRACE] else Member(fields[0], MembersTail(fields[1..])))
  }

  /** Further items, each after a comma, and the closing bracket. */
  function ItemsTail(items: seq<Value>): Bytes
    requires forall i :: 0 <= i < |items| ==> Printable(items[i])
    decreases items, 0
  {
    if items == [] then [CLOSE_BRACKET]
    else [COMMA] + (Serialize(items[0]) + ItemsTail(items[1..]))
  }

  /** A member and the text `rest` after it. */
  function Member(f: Field, rest: Bytes): Bytes
    requires Printable(f.value)
    decreases f, 2
  {
    Quoted(f.key) + ([COLON] + (Serialize(f.value) + rest))
  }

  /** Further members, each after a comma, and the closing brace. */
  function MembersTail(fields: seq<Field>): Bytes
    requires forall i :: 0 <= i < |fields| ==> Printable(fields[i].value)
    decreases fields, 0
  {
    if fields == [] then [CLOSE_BRACE]
    else [COMMA] + Member(fields[0], MembersTail(fields[1..]))
  }

  // ---------------------------------------------------------------- writing

  /** What the loop of an array has still to write at item `i`, the closing bracket included. */
  function ItemsFrom(items: seq<Value>, i: nat): Bytes
    requires i <= |items| && forall j :: 0 <= j < |items| ==> Printable(items[j])
  {
    if i == 0 && items != [] then Serialize(items[0]) + ItemsTail(items[1..]) else ItemsTail(items[i..])
  }

  lemma ItemsFromStep(items: seq<Value>, i: nat)
    requires i < |items| && forall j :: 0 <= j < |items| ==> Printable(items[j])
    ensures ItemsFrom(items, i)
         == ((if i == 0 then [] else [COMMA]) + Serialize(items[i])) + ItemsFrom(items, i + 1)
  {
    assert items[i..][1..] == items[i + 1..];
    assert [] + Serialize(items[i]) == Serialize(items[i]);
    assert [COMMA] + (Serialize(items[i]) + ItemsTail(items[i + 1..]))
        == ([COMMA] + Serialize(items[i])) + ItemsTail(items[i + 1..]);
  }

  function MembersFrom(fields: seq<Field>, i: nat): Bytes
    requires i <= |fields| && forall j :: 0 <= j < |fields| ==> Printable(fields[j].value)
  {
    if i == 0 && fields != [] then Member(fields[0], MembersTail(fields[1..])) else MembersTail(fields[i..])
  }

  /** What the loop of an object writes for one member. */
  function MemberText(f: Field, first: bool): Bytes
    requires Printable(f.value)
  {
    (if first then [] else [COMMA]) + (Quoted(f.key) + [COLON] + Serialize(f.value))
  }

  lemma MembersFromStep(fields: seq<Field>, i: nat)
    requires i < |fields| && forall j :: 0 <= j < |fields| ==> Printable(fields[j].value)
    ensures MembersFrom(fields, i) == MemberText(fields[i], i == 0) + MembersFrom(fields, i + 1)
  {
    var f, tail := fields[i], MembersTail(fields[i + 1..]);
    assert fields[i..][1..] == fields[i + 1..];
    assert Member(f, tail) == (Quoted(f.key) + [COLON] + Serialize(f.value)) + tail;
    assert [COMMA] + Member(f, tail) == MemberText(f, false) + tail;
    assert MemberText(f, true) == Quoted(f.key) + [COLON] + Serialize(f.value);
  }

  /** The output iterator of the original: everything written so far. */
  class Output {
    var text: Bytes

    constructor ()
      ensures text == []
    {
      text := [];
    }

    method Put(s: Bytes)
      modifies this
      ensures text == old(text) + s
    {
      text := text + s;
    }
  }

  /** One more piece of a text whose remainder was known. */
  lemma Advance(before: Bytes, piece: Bytes, rest: Bytes, whole: Bytes)
    requires before + (piece + rest) == whole
    ensures (before + piece) + rest == whole
  {
    assert before + (piece + rest) == (before + piece) + rest;
  }

  /** Three pieces written one after the other. */
  lemma Joined(before: Bytes, a: Bytes, b: Bytes, c: Bytes)
    ensures before + a + b + c == before + (a + b + c)
  {
  }

  method WriteString(s: Bytes, out: Output)
    modifies out
    ensures out.text == old(out.text) + Quoted(s)
  {
    out.Put([QUOTE]);
    ghost var whole := out.text + EscapeAll(s);
    var i := 0;
    while i < |s|
      invariant 0 <= i <= |s|
      invariant out.text + EscapeAll(s[i..]) == whole
    {
      assert s[i..][1..] == s[i + 1..];
      Advance(out.text, EscapeByte(s[i]), EscapeAll(s[i + 1..]), whole);
      out.Put(EscapeByte(s[i]));
      i := i + 1;
    }
    assert out.text + [] == out.text;
    out.Put([QUOTE]);
  }

  method Write(v: Value, out: Output)
    requires Printable(v)
    modifies out
    ensures out.text == old(out.text) + Serialize(v)
    decreases v, 1
  {
    match v
    case Null => out.Put([LOWER_N] + NULL_TAIL);
    case Bool(b) => out.Put(if b then [LOWER_T] + TRUE_TAIL else [LOWER_F] + FALSE_TAIL);
    case Num(x) => out.Put(Decimal(x.Floor));
    case Str(s) => WriteString(s, out);
    case Arr(items) => WriteArray(items, out);
    case Obj(fields) => WriteObject(fields, out);
  }

  method WriteItem(items: seq<Value>, i: nat, out: Output)
    requires i < |items| && forall j :: 0 <= j < |items| ==> Printable(items[j])
    modifies out
    ensures out.text == old(out.text) + ((if i == 0 then [] else [COMMA]) + Serialize(items[i]))
    decreases items, 0
  {
    if i != 0 {
      out.Put([COMMA]);
    }
    Write(items[i], out);
  }

  method WriteArray(items: seq<Value>, out: Output)
    requires forall i :: 0 <= i < |items| ==> Printable(items[i])
    modifies out
    ensures out.text == old(out.text) + Serialize(Arr(items))
    decreases items, 1
  {
    out.Put([OPEN_BRACKET]);
    ghost var whole := out.text + ItemsFrom(items, 0);
    var i := 0;
    while i < |items|
      invariant 0 <= i <= |items|
      invariant out.text + ItemsFrom(items, i) == whole
    {
      ItemsFromStep(items, i);
      Advance(out.text, (if i == 0 then [] else [COMMA]) + Serialize(items[i]), ItemsFrom(items, i + 1), whole);
      WriteItem(items, i, out);
      i := i + 1;
    }
    out.Put([CLOSE_BRACKET]);
    assert whole == old(out.text) + ([OPEN_BRACKET] + ItemsFrom(items, 0));
  }

  method WriteMember(fields: seq<Field>, i: nat, out: Output)
    requires i < |fields| && forall j :: 0 <= j < |fields| ==> Printable(fields[j].value)
    modifies out
    ensures out.text == old(out.text) + MemberText(fields[i], i == 0)
    decreases fields, 0
  {
    if i != 0 {
      out.Put([COMMA]);
    }
    ghost var key, value := Quoted(fields[i].key), Serialize(fields[i].value);
    Joined(out.text, key, [COLON], value);
    Advance(old(out.text), if i == 0 then [] else [COMMA], key + [COLON] + value,
            old(out.text) + MemberText(fields[i], i == 0));
    assert i == 0 ==> old(out.text) + [] == old(out.text);
    WriteString(fields[i].key, out);
    out.Put([COLON]);
    Write(fields[i].value, out);
  }

  method WriteObject(fields: seq<Field>, out: Output)
    requires forall i :: 0 <= i < |fields| ==> Printable(fields[i].value)
    modifies out
    ensures out.text == old(out.text) + Serialize(Obj(fields))
    decreases fields, 1
  {
    out.Put([OPEN_BRACE]);
    ghost var whole := out.text + MembersFrom(fields, 0);
    var i := 0;
    while i < |fields|
      invariant 0 <= i <= |fields|
      invariant out.text + MembersFrom(fields, i) == whole
    {
      MembersFromStep(fields, i);
      Advance(out.text, MemberText(fields[i], i == 0), MembersFrom(fields, i + 1), whole);
      WriteMember(fields, i, out);
      i := i + 1;
    }
    out.Put([CLOSE_BRACE]);
    assert whole == old(out.text) + ([OPEN_BRACE] + MembersFrom(fields, 0));
  }

  /** `serialize()` into a string. */
  method ToText(v: Value) returns (s: Bytes)
    requires Printable(v)
    ensures s == Serialize(v)
  {
    var out := new Output();
    Write(v, out);
    s := out.text;
  }
}
