/** Parsing undoes serializing. */
module JsonRoundTrip {
  import opened Basics
  import opened JsonValue
  import opened JsonNumerals
  import opened JsonGrammar
  import opened JsonText
  import opened JsonStrings
  import opened JsonTrees
  import opened JsonSerializer
  import opened JsonParser

  // ---------------------------------------------------------------- strings

  lemma HexDigitRoundTrip(h: int)
    requires 0 <= h < 16
    ensures HexValue(HexDigit(h)) == h
  {
  }

  /** The six-character escape of a control character. */
  lemma ControlEscape(t: Bytes, p: nat, b: byte)
    requires b < 0x80
    requires At(t, p, [LOWER_U, ZERO, ZERO, HexDigit(b / 16), HexDigit(b % 16)])
    ensures Escape(t, p) == Ok([b], p + 5)
  {
    FourHexDigits(t, p, b);
    CodePointEscape(t, p, b);
  }

  lemma CodePointEscape(t: Bytes, p: nat, b: byte)
    requires p < |t| && b < 0x80 && t[p] == LOWER_U && HexDigits(t, p + 1, 4, 0) == Ok(b, p + 5)
    ensures Escape(t, p) == Ok([b], p + 5)
  {
    assert CodePoint(t, p + 1) == Ok(b, p + 5);
    assert Utf8(b) == [b];
  }

  lemma FourHexDigits(t: Bytes, p: nat, b: byte)
    requires b < 0x80
    requires At(t, p, [LOWER_U, ZERO, ZERO, HexDigit(b / 16), HexDigit(b % 16)])
    ensures p < |t| && t[p] == LOWER_U && HexDigits(t, p + 1, 4, 0) == Ok(b, p + 5)
  {
    FiveBytes(t, p, LOWER_U, ZERO, ZERO, HexDigit(b / 16), HexDigit(b % 16));
    HexDigitRoundTrip(b / 16);
    HexDigitRoundTrip(b % 16);
    TwoHexDigits(t, p + 3, b);
    LeadingZero(t, p + 2, 3);
    LeadingZero(t, p + 1, 4);
  }

  lemma FiveBytes(t: Bytes, p: nat, a: byte, b: byte, c: byte, d: byte, e: byte)
    requires At(t, p, [a, b, c, d, e])
    ensures p + 5 <= |t| && t[p] == a && t[p + 1] == b && t[p + 2] == c && t[p + 3] == d && t[p + 4] == e
  {
    var s := [a, b, c, d, e];
    AtByte(t, p, s, 0);
    AtByte(t, p, s, 1);
    AtByte(t, p, s, 2);
    AtByte(t, p, s, 3);
    AtByte(t, p, s, 4);
  }

  lemma LeadingZero(t: Bytes, p: nat, n: nat)
    requires p < |t| && t[p] == ZERO && n > 0
    ensures HexDigits(t, p, n, 0) == HexDigits(t, p + 1, n - 1, 0)
  {
  }

  lemma TwoHexDigits(t: Bytes, p: nat, b: byte)
    requires p + 2 <= |t| && HexValue(t[p]) == b / 16 && HexValue(t[p + 1]) == b % 16
    ensures HexDigits(t, p, 2, 0) == Ok(b, p + 2)
  {
    assert HexDigits(t, p + 2, 0, b) == Ok(b, p + 2);
    assert HexDigits(t, p + 1, 1, b / 16) == Ok(b, p + 2);
  }

  /** The serializer takes the shortest escape there is, and writes raw what needs none: all but
      the control characters, the quote, the backslash, the slash and DEL. */
  lemma EscapeForms(b: byte)
    ensures var e := EscapeByte(b);
            && (|e| == 1 || |e| == 2 || |e| == 6)
            && (|e| == 1 <==> b >= 0x20 && b !in [0x22, 0x2f, 0x5c, 0x7f])
            && (|e| == 1 ==> e == [b])
            && (|e| == 2 <==> exists c: byte :: LetterMeaning(c) == Some(b))
            && (|e| == 2 ==> e[0] == 0x5c && LetterMeaning(e[1]) == Some(b))
            && (|e| == 6 ==> e == [0x5c, 0x75, 0x30, 0x30, LOWER_HEX[b / 16], LOWER_HEX[b % 16]])
  {
    var e := EscapeByte(b);
    if |e| == 2 {
      assert LetterMeaning(e[1]) == Some(b);
    } else if |e| == 6 {
      HexDigitIs(b / 16);
      HexDigitIs(b % 16);
    }
  }

  lemma HexDigitIs(h: int)
    requires 0 <= h < 16
    ensures HexDigit(h) == LOWER_HEX[h]
  {
  }

  lemma ByteRoundTrip(t: Bytes, p: nat, b: byte, acc: Bytes)
    requires At(t, p, EscapeByte(b))
    ensures BodyAt(t, p, acc) == BodyAt(t, p + |EscapeByte(b)|, acc + [b])
  {
    var e := EscapeByte(b);
    AtFirst(t, p, e);
    if |e| == 1 {
    } else {
      assert e == [BACKSLASH] + e[1..];
      AtSplit(t, p, [BACKSLASH], e[1..]);
      AtFirst(t, p + 1, e[1..]);
      if |e| == 6 {
        ControlEscape(t, p + 1, b);
      } else {
        assert Escape(t, p + 1) == Ok([b], p + 2);
      }
    }
  }

  /** The first byte of a string in the text, and the rest. */
  lemma FirstByteAt(t: Bytes, p: nat, s: Bytes)
    requires s != [] && At(t, p, EscapeAll(s) + [QUOTE])
    ensures At(t, p, EscapeByte(s[0])) && At(t, p + |EscapeByte(s[0])|, EscapeAll(s[1..]) + [QUOTE])
    ensures |EscapeAll(s)| == |EscapeByte(s[0])| + |EscapeAll(s[1..])|
  {
    SplitFirst(t, p, EscapeByte(s[0]), EscapeAll(s[1..]), EscapeAll(s));
  }

  lemma SplitFirst(t: Bytes, p: nat, e: Bytes, rest: Bytes, all: Bytes)
    requires all == e + rest && At(t, p, all + [QUOTE])
    ensures At(t, p, e) && At(t, p + |e|, rest + [QUOTE]) && |all| == |e| + |rest|
  {
    AtSplitOfThree(t, p, e, rest, all, [QUOTE]);
  }

  /** `r` is what the string parser makes of the text at `p`. */
  lemma {:induction false} StringRoundTrip(t: Bytes, p: nat, s: Bytes, acc: Bytes, r: Res<Bytes>)
    requires At(t, p, EscapeAll(s) + [QUOTE]) && r == BodyAt(t, p, acc)
    ensures r == Ok(acc + s, p + |EscapeAll(s)| + 1)
    decreases |s|
  {
    if s == [] {
      assert EscapeAll(s) + [QUOTE] == [QUOTE];
      ClosingQuote(t, p, acc);
      assert acc + s == acc;
    } else {
      FirstByteAt(t, p, s);
      ByteRoundTrip(t, p, s[0], acc);
      StringRoundTrip(t, p + |EscapeByte(s[0])|, s[1..], acc + [s[0]], r);
      Associate(acc, [s[0]], s[1..], s);
    }
  }

  lemma QuotedRoundTrip(t: Bytes, p: nat, s: Bytes)
    requires At(t, p, Quoted(s))
    ensures CharAt(t, p) == QUOTE
    ensures StringBody(t, p + 1, []) == Ok(s, p + |Quoted(s)|)
  {
    assert Quoted(s) == [QUOTE] + (EscapeAll(s) + [QUOTE]);
    AtSplit(t, p, [QUOTE], EscapeAll(s) + [QUOTE]);
    AtFirst(t, p, [QUOTE]);
    StringRoundTrip(t, p + 1, s, [], BodyAt(t, p + 1, []));
    assert [] + s == s;
  }

  // ---------------------------------------------------------------- numbers

  lemma {:induction false} DigitsRoundTrip(n: nat)
    ensures NatOf(Digits(n)) == n
  {
    var s := Digits(n);
    if n < 10 {
      assert s[..|s| - 1] == [];
    } else {
      DigitsRoundTrip(n / 10);
      assert s[..|s| - 1] == Digits(n / 10);
    }
  }

  /** The printed integer as a numeral: a sign and digits, with neither point nor exponent. */
  lemma DecimalNumeral(n: int) returns (numeral: Numeral)
    ensures numeral.Valid() && numeral.Text() == Decimal(n) && numeral.Amount() == n as real
    ensures numeral.sign == [0x2d] || (numeral.sign == [] && numeral.whole != [])
  {
    var m: nat := if n < 0 then -n else n;
    DigitsRoundTrip(m);
    numeral := Numeral(if n < 0 then [0x2d] else [], Digits(m), None, None);
    WholeAmount(numeral, m);
  }

  lemma WholeAmount(n: Numeral, m: nat)
    requires n.Valid() && n.fraction.None? && n.exponent.None? && NatOf(n.whole) == m
    ensures n.Text() == n.sign + n.whole
    ensures n.Amount() == if n.sign == [0x2d] then -(m as real) else m as real
  {
    assert n.whole + n.Decimals() == n.whole;
  }

  lemma DecimalRoundTrip(n: int)
    ensures Strtod(Decimal(n)) == Some(n as real)
  {
    var numeral := DecimalNumeral(n);
    NumeralIsScanned(numeral);
  }

  // ---------------------------------------------------------------- values

  /** A value that closes: what follows does not continue a number. */
  predicate Closed(t: Bytes, n: nat, v: Value) {
    v.Num? ==> !IsNumberChar(CharAt(t, n))
  }

  lemma NumberLeaf(t: Bytes, p: nat, n: int)
    requires At(t, p, Decimal(n)) && !IsNumberChar(CharAt(t, p + |Decimal(n)|))
    ensures Amounts(t, p, p, p + |Decimal(n)|, n as real)
  {
    var numeral := DecimalNumeral(n);
    assert NumberFits(t, p, p, p + |Decimal(n)|, numeral);
  }

  lemma StringLeaf(t: Bytes, p: nat, s: Bytes)
    requires At(t, p, Quoted(s))
    ensures Quotes(t, p, p, p + |Quoted(s)|, s)
  {
    QuotedRoundTrip(t, p, s);
    StringIsLeaf(t, p, p, StringBody(t, p + 1, []));
  }

  lemma EmptyLeaf(t: Bytes, p: nat, open: byte, close: byte)
    requires At(t, p, [open, close])
    ensures EmptyFits(t, p, p, p + 2, open, close)
  {
    AtByte(t, p, [open, close], 0);
    AtByte(t, p, [open, close], 1);
  }

  lemma WordLeaf(t: Bytes, p: nat, v: Value)
    requires (v.Null? || v.Bool?) && At(t, p, Serialize(v))
    ensures LeafFits(t, p, p, p + |Serialize(v)|, v)
  {
    assert Serialize(v) == WordText(v);
  }

  lemma NumLeaf(t: Bytes, p: nat, x: real)
    requires PlainInteger(x) && At(t, p, Decimal(x.Floor)) && !IsNumberChar(CharAt(t, p + |Decimal(x.Floor)|))
    ensures LeafFits(t, p, p, p + |Decimal(x.Floor)|, Num(x))
  {
    NumberLeaf(t, p, x.Floor);
  }

  lemma StrLeaf(t: Bytes, p: nat, s: Bytes)
    requires At(t, p, Quoted(s))
    ensures LeafFits(t, p, p, p + |Quoted(s)|, Str(s))
  {
    StringLeaf(t, p, s);
  }

  lemma EmptyText(t: Bytes, p: nat, v: Value)
    requires (v == Arr([]) || v == Obj([])) && At(t, p, Serialize(v))
    ensures LeafFits(t, p, p, p + |Serialize(v)|, v) && |Serialize(v)| == 2
  {
    if v.Arr? {
      assert Serialize(v) == [OPEN_BRACKET, CLOSE_BRACKET];
      EmptyLeaf(t, p, OPEN_BRACKET, CLOSE_BRACKET);
    } else {
      assert Serialize(v) == [OPEN_BRACE, CLOSE_BRACE];
      EmptyLeaf(t, p, OPEN_BRACE, CLOSE_BRACE);
    }
  }

  /** The text of a value without members is a leaf. */
  lemma LeafText(t: Bytes, p: nat, v: Value, text: Bytes)
    requires Printable(v) && text == Serialize(v) && At(t, p, text) && Closed(t, p + |text|, v)
    requires v.Arr? ==> v.items == []
    requires v.Obj? ==> v.fields == []
    ensures LeafFits(t, p, p, p + |text|, v)
    ensures v.Arr? || v.Obj? ==> |text| == 2
  {
    if v.Num? {
      NumLeaf(t, p, v.n);
    } else if v.Str? {
      StrLeaf(t, p, v.s);
    } else if v.Arr? || v.Obj? {
      EmptyText(t, p, v);
    } else {
      WordLeaf(t, p, v);
    }
  }

  lemma LeafTree(t: Bytes, p: nat, n: nat, v: Value) returns (l: Tree)
    requires LeafFits(t, p, p, n, v) && (v.Arr? || v.Obj? ==> n == p + 2)
    ensures Fits(t, l) && l.from == p && l.to == n && Meaning(l) == v && Tight(l)
  {
    l := Leaf(p, p, n, v);
  }

  /** A tree without white space fits the text of a value, and means that value. */
  lemma {:induction false} PlainFits(t: Bytes, p: nat, v: Value) returns (l: Tree)
    requires WellFormed(v) && Printable(v) && At(t, p, Serialize(v)) && Closed(t, p + |Serialize(v)|, v)
    ensures Fits(t, l) && l.from == p && l.to == p + |Serialize(v)| && Meaning(l) == v && Tight(l)
    decreases v, 0
  {
    if v.Arr? && v.items != [] {
      l := PlainList(t, p, v.items);
    } else if v.Obj? && v.fields != [] {
      l := PlainMap(t, p, v.fields);
    } else {
      LeafText(t, p, v, Serialize(v));
      l := LeafTree(t, p, p + |Serialize(v)|, v);
    }
  }

  lemma {:induction false} PlainList(t: Bytes, p: nat, items: seq<Value>) returns (l: Tree)
    requires items != [] && WellFormed(Arr(items)) && Printable(Arr(items)) && At(t, p, Serialize(Arr(items)))
    ensures Fits(t, l) && l.from == p && l.to == p + |Serialize(Arr(items))| && Meaning(l) == Arr(items) && Tight(l)
    decreases items, 2
  {
    ArrayStarts(t, p, items);
    var item, rest := PlainItem(t, p + 1, items, 0);
    l := List(p, p, rest.to, item, rest);
    assert [items[0]] + items[1..] == items;
  }

  lemma ArrayStarts(t: Bytes, p: nat, items: seq<Value>)
    requires items != [] && Printable(Arr(items)) && At(t, p, Serialize(Arr(items)))
    ensures Token(t, p, p, OPEN_BRACKET) && At(t, p + 1, Serialize(items[0]) + ItemsTail(items[1..]))
    ensures |Serialize(Arr(items))| == 1 + |Serialize(items[0])| + |ItemsTail(items[1..])|
  {
    var rest := Serialize(items[0]) + ItemsTail(items[1..]);
    assert Serialize(Arr(items)) == [OPEN_BRACKET] + rest;
    AtChar(t, p, OPEN_BRACKET, rest);
  }

  /** Item `i` and what follows it. */
  lemma {:induction false} PlainItem(t: Bytes, p: nat, items: seq<Value>, i: nat) returns (item: Tree, rest: Rest)
    requires i < |items| && WellFormed(Arr(items)) && Printable(Arr(items))
    requires At(t, p, Serialize(items[i]) + ItemsTail(items[i + 1..]))
    ensures Fits(t, item) && item.from == p && Meaning(item) == items[i] && Tight(item)
    ensures RestFits(t, rest) && rest.from == item.to && RestMeaning(rest) == items[i + 1..] && TightRest(rest)
    ensures rest.to == p + |Serialize(items[i])| + |ItemsTail(items[i + 1..])|
    decreases items, 1, |items| - i, 0
  {
    var n := p + |Serialize(items[i])|;
    AtSplit(t, p, Serialize(items[i]), ItemsTail(items[i + 1..]));
    ItemsTailAt(t, n, items, i + 1);
    item := PlainFits(t, p, items[i]);
    rest := PlainRest(t, n, items, i + 1);
  }

  lemma {:induction false} PlainRest(t: Bytes, n: nat, items: seq<Value>, i: nat) returns (rest: Rest)
    requires i <= |items| && WellFormed(Arr(items)) && Printable(Arr(items))
    requires At(t, n, ItemsTail(items[i..]))
    ensures RestFits(t, rest) && rest.from == n && RestMeaning(rest) == items[i..] && TightRest(rest)
    ensures rest.to == n + |ItemsTail(items[i..])|
    decreases items, 1, |items| - i, 1
  {
    ItemsTailAt(t, n, items, i);
    if i == |items| {
      rest := EndList(n, n, n + 1);
    } else {
      var item, tail := PlainItem(t, n + 1, items, i);
      rest := NextItem(n, n, tail.to, item, tail);
      assert [items[i]] + items[i + 1..] == items[i..];
    }
  }

  /** Behind an item stands the closing bracket, or a comma and the next item. */
  lemma ItemsTailAt(t: Bytes, n: nat, items: seq<Value>, i: nat)
    requires i <= |items| && forall j :: 0 <= j < |items| ==> Printable(items[j])
    requires At(t, n, ItemsTail(items[i..]))
    ensures !IsNumberChar(CharAt(t, n))
    ensures i == |items| ==> Token(t, n, n, CLOSE_BRACKET) && |ItemsTail(items[i..])| == 1
    ensures i < |items| ==>
              && Token(t, n, n, COMMA) && At(t, n + 1, Serialize(items[i]) + ItemsTail(items[i + 1..]))
              && |ItemsTail(items[i..])| == 1 + |Serialize(items[i])| + |ItemsTail(items[i + 1..])|
  {
    if i == |items| {
      assert ItemsTail(items[i..]) == [CLOSE_BRACKET];
      AtFirst(t, n, [CLOSE_BRACKET]);
    } else {
      ItemsTailIs(items, i);
      AtChar(t, n, COMMA, Serialize(items[i]) + ItemsTail(items[i + 1..]));
    }
  }

  lemma ItemsTailIs(items: seq<Value>, i: nat)
    requires i < |items| && forall j :: 0 <= j < |items| ==> Printable(items[j])
    ensures ItemsTail(items[i..]) == [COMMA] + (Serialize(items[i]) + ItemsTail(items[i + 1..]))
  {
    assert items[i..][1..] == items[i + 1..];
  }

  lemma {:induction false} PlainMap(t: Bytes, p: nat, fields: seq<Field>) returns (l: Tree)
    requires fields != [] && WellFormed(Obj(fields)) && Printable(Obj(fields)) && At(t, p, Serialize(Obj(fields)))
    ensures Fits(t, l) && l.from == p && l.to == p + |Serialize(Obj(fields))| && Meaning(l) == Obj(fields) && Tight(l)
    decreases fields, 2
  {
    ObjectStarts(t, p, fields);
    var entry, entries := PlainMember(t, p + 1, fields, 0);
    l := Map(p, p, entries.to, entry, entries);
    assert fields[..0] == [];
  }

  lemma ObjectStarts(t: Bytes, p: nat, fields: seq<Field>)
    requires fields != [] && Printable(Obj(fields)) && At(t, p, Serialize(Obj(fields)))
    ensures Token(t, p, p, OPEN_BRACE) && At(t, p + 1, Member(fields[0], MembersTail(fields[1..])))
    ensures |Serialize(Obj(fields))| == 1 + |Member(fields[0], MembersTail(fields[1..]))|
  {
    var rest := Member(fields[0], MembersTail(fields[1..]));
    assert Serialize(Obj(fields)) == [OPEN_BRACE] + rest;
    AtChar(t, p, OPEN_BRACE, rest);
  }

  /** Member `i` and what follows it; the map holds the members before. */
  lemma {:induction false} PlainMember(t: Bytes, p: nat, fields: seq<Field>, i: nat)
    returns (entry: Entry, entries: Entries)
    requires i < |fields| && WellFormed(Obj(fields)) && Printable(Obj(fields))
    requires At(t, p, Member(fields[i], MembersTail(fields[i + 1..])))
    ensures EntryFits(t, entry) && entry.from == p && TightEntry(entry) && TightEntries(entries)
    ensures EntriesFit(t, entries) && entries.from == entry.to
    ensures EntriesMeaning(Assign(fields[..i], EntryMeaning(entry)), entries) == fields
    ensures entries.to == p + |Member(fields[i], MembersTail(fields[i + 1..]))|
    decreases fields, 1, |fields| - i, 0
  {
    var key, n := MemberIsAt(t, p, fields, i);
    var value := PlainFits(t, key + 1, fields[i].value);
    entry := EntryTight(t, p, key, fields[i], value);
    entries := PlainEntries(t, n, fields, i + 1);
    MemberAppends(fields, i);
  }

  lemma MemberIsAt(t: Bytes, p: nat, fields: seq<Field>, i: nat) returns (key: nat, n: nat)
    requires i < |fields| && forall j :: 0 <= j < |fields| ==> Printable(fields[j].value)
    requires At(t, p, Member(fields[i], MembersTail(fields[i + 1..])))
    ensures Quotes(t, p, p, key, fields[i].key) && Token(t, key, key, COLON)
    ensures At(t, key + 1, Serialize(fields[i].value)) && n == key + 1 + |Serialize(fields[i].value)|
    ensures At(t, n, MembersTail(fields[i + 1..])) && !IsNumberChar(CharAt(t, n))
    ensures n + |MembersTail(fields[i + 1..])| == p + |Member(fields[i], MembersTail(fields[i + 1..]))|
  {
    key, n := MemberAt(t, p, fields[i], MembersTail(fields[i + 1..]));
    MembersTailAt(t, n, fields, i + 1);
  }

  lemma EntryTight(t: Bytes, p: nat, key: nat, f: Field, value: Tree) returns (entry: Entry)
    requires Quotes(t, p, p, key, f.key) && Token(t, key, key, COLON)
    requires Fits(t, value) && value.from == key + 1 && Meaning(value) == f.value && Tight(value)
    ensures EntryFits(t, entry) && TightEntry(entry) && EntryMeaning(entry) == f
    ensures entry.from == p && entry.to == value.to
  {
    entry := EntryFrom(t, p, p, key, key, f, value);
  }

  lemma {:induction false} PlainEntries(t: Bytes, n: nat, fields: seq<Field>, i: nat) returns (entries: Entries)
    requires i <= |fields| && WellFormed(Obj(fields)) && Printable(Obj(fields))
    requires At(t, n, MembersTail(fields[i..]))
    ensures EntriesFit(t, entries) && entries.from == n && EntriesMeaning(fields[..i], entries) == fields
    ensures TightEntries(entries)
    ensures entries.to == n + |MembersTail(fields[i..])|
    decreases fields, 1, |fields| - i, 1
  {
    MembersTailAt(t, n, fields, i);
    if i == |fields| {
      entries := EndMap(n, n, n + 1);
      assert fields[..i] == fields;
    } else {
      var entry, tail := PlainMember(t, n + 1, fields, i);
      entries := NextEntry(n, n, tail.to, entry, tail);
    }
  }

  /** A member's key, colon and value, and what stands behind them. */
  lemma MemberAt(t: Bytes, p: nat, f: Field, tail: Bytes) returns (key: nat, n: nat)
    requires Printable(f.value) && At(t, p, Member(f, tail))
    ensures Quotes(t, p, p, key, f.key) && Token(t, key, key, COLON)
    ensures At(t, key + 1, Serialize(f.value)) && At(t, n, tail)
    ensures n == key + 1 + |Serialize(f.value)| && n + |tail| == p + |Member(f, tail)|
  {
    key, n := AroundColon(t, p, Quoted(f.key), Serialize(f.value), tail);
    StringLeaf(t, p, f.key);
  }

  lemma AroundColon(t: Bytes, p: nat, name: Bytes, text: Bytes, tail: Bytes) returns (key: nat, n: nat)
    requires At(t, p, name + ([COLON] + (text + tail)))
    ensures At(t, p, name) && key == p + |name| && Token(t, key, key, COLON)
    ensures At(t, key + 1, text) && n == key + 1 + |text| && At(t, n, tail)
  {
    key := p + |name|;
    n := key + 1 + |text|;
    AtSplit(t, p, name, [COLON] + (text + tail));
    AtChar(t, key, COLON, text + tail);
    AtSplit(t, key + 1, text, tail);
  }

  /** Behind a member stands the closing brace, or a comma and the next member. */
  lemma MembersTailAt(t: Bytes, n: nat, fields: seq<Field>, i: nat)
    requires i <= |fields| && forall j :: 0 <= j < |fields| ==> Printable(fields[j].value)
    requires At(t, n, MembersTail(fields[i..]))
    ensures !IsNumberChar(CharAt(t, n))
    ensures i == |fields| ==> Token(t, n, n, CLOSE_BRACE) && |MembersTail(fields[i..])| == 1
    ensures i < |fields| ==>
              && Token(t, n, n, COMMA) && At(t, n + 1, Member(fields[i], MembersTail(fields[i + 1..])))
              && |MembersTail(fields[i..])| == 1 + |Member(fields[i], MembersTail(fields[i + 1..]))|
  {
    if i == |fields| {
      assert MembersTail(fields[i..]) == [CLOSE_BRACE];
      AtFirst(t, n, [CLOSE_BRACE]);
    } else {
      var next := Member(fields[i], MembersTail(fields[i + 1..]));
      MembersTailIs(fields, i);
      AtChar(t, n, COMMA, next);
    }
  }

  lemma MembersTailIs(fields: seq<Field>, i: nat)
    requires i < |fields| && forall j :: 0 <= j < |fields| ==> Printable(fields[j].value)
    ensures MembersTail(fields[i..]) == [COMMA] + Member(fields[i], MembersTail(fields[i + 1..]))
  {
    assert fields[i..][1..] == fields[i + 1..];
  }

  /** The members come in the order of their keys. */
  lemma MemberAppends(fields: seq<Field>, i: nat)
    requires i < |fields| && WellFormed(Obj(fields))
    ensures Assign(fields[..i], fields[i]) == fields[..i + 1]
  {
    PutAppends(fields[..i], fields[i].key, fields[i].value);
  }

  /** The text of a well-formed value, followed by anything that does not continue a number,
      is read back as that value, and exactly that text is consumed. */
  lemma ValueRoundTrip(t: Bytes, p: nat, v: Value)
    requires WellFormed(v) && Printable(v) && At(t, p, Serialize(v))
    requires v.Num? ==> !IsNumberChar(CharAt(t, p + |Serialize(v)|))
    ensures ParseValue(t, p) == Ok(v, p + |Serialize(v)|)
  {
    var l := PlainFits(t, p, v);
    FittingIsParsed(t, l);
  }

  /** What the serializer writes has no white space. */
  lemma WrittenTight(v: Value) returns (l: Tree)
    requires WellFormed(v) && Printable(v)
    ensures Fits(Serialize(v), l) && Tight(l) && l.from == 0 && l.to == |Serialize(v)| && Meaning(l) == v
  {
    assert At(Serialize(v), 0, Serialize(v));
    l := PlainFits(Serialize(v), 0, v);
  }

  /** A whole text. */
  lemma TextRoundTrip(v: Value)
    requires WellFormed(v) && Printable(v)
    ensures ParseValue(Serialize(v), 0) == Ok(v, |Serialize(v)|)
  {
    assert At(Serialize(v), 0, Serialize(v));
    ValueRoundTrip(Serialize(v), 0, v);
  }

  /** Different values have different texts. */
  lemma SerializeIsInjective(v: Value, w: Value)
    requires WellFormed(v) && Printable(v) && WellFormed(w) && Printable(w)
    requires Serialize(v) == Serialize(w)
    ensures v == w
  {
    TextRoundTrip(v);
    TextRoundTrip(w);
  }

  // ---------------------------------------------------------------- from text to text

  /** Whatever the text, repeated keys and all, a parsed value is well-formed. */
  lemma {:induction false} ParsedIsWellFormed(t: Bytes, p: nat)
    requires p <= |t| && ParseValue(t, p).Ok?
    ensures WellFormed(ParseValue(t, p).value)
    decreases |t| - p, 1
  {
    var q := SkipSpace(t, p);
    var c := CharAt(t, q);
    if c == OPEN_BRACKET {
      var (empty, k) := Expect(t, q + 1, CLOSE_BRACKET);
      if !empty {
        ItemsAreWellFormed(t, k, []);
      }
    } else if c == OPEN_BRACE {
      var (empty, k) := Expect(t, q + 1, CLOSE_BRACE);
      if !empty {
        MembersAreWellFormed(t, k, []);
      }
    }
  }

  lemma {:induction false} ItemsAreWellFormed(t: Bytes, p: nat, acc: seq<Value>)
    requires p <= |t| && ParseItems(t, p, acc).Ok?
    requires forall i :: 0 <= i < |acc| ==> WellFormed(acc[i])
    ensures WellFormed(ParseItems(t, p, acc).value)
    decreases |t| - p, 2
  {
    var r := ParseValue(t, p);
    ParsedIsWellFormed(t, p);
    var (more, m) := Expect(t, r.next, COMMA);
    if more {
      ItemsAreWellFormed(t, m, acc + [r.value]);
    }
  }

  lemma {:induction false} MembersAreWellFormed(t: Bytes, p: nat, acc: seq<Field>)
    requires p <= |t| && ParseMembers(t, p, acc).Ok?
    requires Sorted(acc) && forall f :: f in acc ==> WellFormed(f.value)
    ensures WellFormed(ParseMembers(t, p, acc).value)
    decreases |t| - p, 2
  {
    var key := ParseKey(t, p);
    var r := ParseValue(t, key.next);
    ParsedIsWellFormed(t, key.next);
    PutIsUpdate(acc, key.value, r.value);
    var fields := Put(acc, key.value, r.value);
    var (more, m) := Expect(t, r.next, COMMA);
    if more {
      MembersAreWellFormed(t, m, fields);
    } else {
      forall i | 0 <= i < |fields| ensures WellFormed(fields[i].value) {
        assert fields[i] in fields;
      }
    }
  }

  /** So a text that was accepted can be rewritten in the serializer's form without changing what
      it means. */
  lemma RewritingKeepsMeaning(t: Bytes)
    requires ParseValue(t, 0).Ok? && Printable(ParseValue(t, 0).value)
    ensures var v := ParseValue(t, 0).value;
            ParseValue(Serialize(v), 0) == Ok(v, |Serialize(v)|)
  {
    ParsedIsWellFormed(t, 0);
    TextRoundTrip(ParseValue(t, 0).value);
  }

  // ---------------------------------------------------------------- the returned iterator

  /** Behind every serialized number that a blank follows, the iterator that `parse` returns has
      passed the blank; for the text "1 " it is 2. */
  lemma IteratorPassesBlank(n: int, text: Bytes, r: Verdict)
    requires PlainInteger(n as real) && text == Decimal(n) + [SPACE] && IsVerdict(text, r)
    ensures r == Accepted(Num(n as real), |Decimal(n)| + 1) && |Decimal(n)| + 1 == |text|
    ensures ParseValue(text, 0) == Ok(Num(n as real), |Decimal(n)|)
    ensures n == 1 ==> text == [ZERO + 1, SPACE]
  {
    NumberAndBlank(n, text);
    OneIsOneDigit();
  }

  lemma NumberAndBlank(n: int, text: Bytes)
    requires PlainInteger(n as real) && text == Decimal(n) + [SPACE]
    ensures ParseValue(text, 0) == Ok(Num(n as real), |Decimal(n)|)
  {
    var v := Num(n as real);
    assert (n as real).Floor == n && Serialize(v) == Decimal(n);
    assert text[0 .. |Decimal(n)|] == Decimal(n);
    assert CharAt(text, |Decimal(n)|) == SPACE;
    ValueRoundTrip(text, 0, v);
  }

  lemma OneIsOneDigit()
    ensures Decimal(1) == [ZERO + 1]
  {
  }
}
