/** Which texts are JSON, white space and all, written down without a parser: a tree whose nodes
    say where their tokens stand.  The parser accepts exactly the texts that such a tree fits. */
module JsonTrees {
  import opened Basics
  import opened JsonValue
  import opened JsonNumerals
  import opened JsonGrammar
  import opened JsonText
  import opened JsonStrings

  /** A value between `from` and `to`; its first token stands at `at`, behind white space.  A
      leaf is a word, a number, a string, or an empty pair of brackets. */
  datatype Tree =
    | Leaf(from: nat, at: nat, to: nat, value: Value)
    | List(from: nat, at: nat, to: nat, item: Tree, rest: Rest)
    | Map(from: nat, at: nat, to: nat, entry: Entry, entries: Entries)

  /** What follows an item: the closing bracket, or a comma and the next item. */
  datatype Rest =
    | EndList(from: nat, at: nat, to: nat)
    | NextItem(from: nat, at: nat, to: nat, item: Tree, rest: Rest)

  /** A key from its quote at `at`, and a value behind the colon. */
  datatype Entry = Entry(from: nat, at: nat, keyEnd: nat, colon: nat, to: nat, key: Bytes, value: Tree)

  datatype Entries =
    | EndMap(from: nat, at: nat, to: nat)
    | NextEntry(from: nat, at: nat, to: nat, entry: Entry, entries: Entries)

  // ---------------------------------------------------------------- fitting a text

  function WordText(v: Value): Bytes {
    match v
    case Null => [0x6e, 0x75, 0x6c, 0x6c]
    case Bool(true) => [0x74, 0x72, 0x75, 0x65]
    case Bool(false) => [0x66, 0x61, 0x6c, 0x73, 0x65]
    case _ => []
  }

  /** White space from `from` on, and then the character `c`. */
  predicate Token(t: Bytes, from: nat, at: nat, c: byte) {
    from <= at < |t| && AllSpace(t[from..at]) && t[at] == c
  }

  predicate WordFits(t: Bytes, from: nat, at: nat, to: nat, v: Value) {
    && from <= at <= to <= |t| && AllSpace(t[from..at])
    && (v.Null? || v.Bool?) && t[at..to] == WordText(v)
  }

  /** A number begins with a digit or a minus sign, and goes as far as it can. */
  predicate NumberFits(t: Bytes, from: nat, at: nat, to: nat, n: Numeral) {
    && from <= at <= to <= |t| && AllSpace(t[from..at])
    && n.Valid() && (n.sign == [0x2d] || (n.sign == [] && n.whole != []))
    && t[at..to] == n.Text() && !NumberOctet(CharAt(t, to))
  }

  /** A string literal, quotes included. */
  predicate StringFits(t: Bytes, from: nat, at: nat, to: nat, ps: seq<Piece>) {
    && Token(t, from, at, 0x22) && AllValid(ps)
    && to == at + 1 + |Texts(ps)| + 1 && At(t, at + 1, Texts(ps) + [0x22])
  }

  predicate EmptyFits(t: Bytes, from: nat, at: nat, to: nat, open: byte, close: byte) {
    Token(t, from, at, open) && to > 0 && Token(t, at + 1, to - 1, close)
  }

  /** A number token that means `x`, and a literal that means `s`. */
  ghost predicate Amounts(t: Bytes, from: nat, at: nat, to: nat, x: real) {
    exists n :: NumberFits(t, from, at, to, n) && n.Amount() == x
  }

  ghost predicate Quotes(t: Bytes, from: nat, at: nat, to: nat, s: Bytes) {
    exists ps :: StringFits(t, from, at, to, ps) && Meanings(ps) == s
  }

  ghost predicate LeafFits(t: Bytes, from: nat, at: nat, to: nat, v: Value) {
    match v
    case Null => WordFits(t, from, at, to, v)
    case Bool(_) => WordFits(t, from, at, to, v)
    case Num(x) => Amounts(t, from, at, to, x)
    case Str(s) => Quotes(t, from, at, to, s)
    case Arr(items) => items == [] && EmptyFits(t, from, at, to, 0x5b, 0x5d)
    case Obj(fields) => fields == [] && EmptyFits(t, from, at, to, 0x7b, 0x7d)
  }

  ghost predicate Fits(t: Bytes, l: Tree) {
    match l
    case Leaf(from, at, to, v) => LeafFits(t, from, at, to, v)
    case List(from, at, to, item, rest) =>
      && Token(t, from, at, 0x5b) && item.from == at + 1 && Fits(t, item)
      && rest.from == item.to && RestFits(t, rest) && to == rest.to
    case Map(from, at, to, entry, entries) =>
      && Token(t, from, at, 0x7b) && entry.from == at + 1 && EntryFits(t, entry)
      && entries.from == entry.to && EntriesFit(t, entries) && to == entries.to
  }

  ghost predicate RestFits(t: Bytes, r: Rest) {
    match r
    case EndList(from, at, to) => Token(t, from, at, 0x5d) && to == at + 1
    case NextItem(from, at, to, item, rest) =>
      && Token(t, from, at, 0x2c) && item.from == at + 1 && Fits(t, item)
      && rest.from == item.to && RestFits(t, rest) && to == rest.to
  }

  ghost predicate EntryFits(t: Bytes, e: Entry) {
    && Quotes(t, e.from, e.at, e.keyEnd, e.key)
    && Token(t, e.keyEnd, e.colon, 0x3a)
    && e.value.from == e.colon + 1 && Fits(t, e.value) && e.to == e.value.to
  }

  ghost predicate EntriesFit(t: Bytes, es: Entries) {
    match es
    case EndMap(from, at, to) => Token(t, from, at, 0x7d) && to == at + 1
    case NextEntry(from, at, to, entry, entries) =>
      && Token(t, from, at, 0x2c) && entry.from == at + 1 && EntryFits(t, entry)
      && entries.from == entry.to && EntriesFit(t, entries) && to == entries.to
  }

  // ---------------------------------------------------------------- meaning

  function Meaning(l: Tree): Value
    decreases l
  {
    match l
    case Leaf(_, _, _, v) => v
    case List(_, _, _, item, rest) => Arr([Meaning(item)] + RestMeaning(rest))
    case Map(_, _, _, entry, entries) => Obj(EntriesMeaning(Assign([], EntryMeaning(entry)), entries))
  }

  function RestMeaning(r: Rest): seq<Value>
    decreases r
  {
    match r
    case EndList(_, _, _) => []
    case NextItem(_, _, _, item, rest) => [Meaning(item)] + RestMeaning(rest)
  }

  function EntryMeaning(e: Entry): Field
    decreases e
  {
    Field(e.key, Meaning(e.value))
  }

  function Assign(fields: seq<Field>, f: Field): seq<Field> {
    Put(fields, f.key, f.value)
  }

  /** Later assignments to a key replace earlier ones. */
  function EntriesMeaning(fields: seq<Field>, es: Entries): seq<Field>
    decreases es
  {
    match es
    case EndMap(_, _, _) => fields
    case NextEntry(_, _, _, entry, entries) => EntriesMeaning(Assign(fields, EntryMeaning(entry)), entries)
  }

  /** Without any white space. */
  predicate Tight(l: Tree)
    decreases l
  {
    match l
    case Leaf(from, at, to, v) => at == from && (v.Arr? || v.Obj? ==> to == at + 2)
    case List(from, at, _, item, rest) => at == from && Tight(item) && TightRest(rest)
    case Map(from, at, _, entry, entries) => at == from && TightEntry(entry) && TightEntries(entries)
  }

  predicate TightRest(r: Rest)
    decreases r
  {
    match r
    case EndList(from, at, _) => at == from
    case NextItem(from, at, _, item, rest) => at == from && Tight(item) && TightRest(rest)
  }

  predicate TightEntry(e: Entry)
    decreases e
  {
    e.at == e.from && e.colon == e.keyEnd && Tight(e.value)
  }

  predicate TightEntries(es: Entries)
    decreases es
  {
    match es
    case EndMap(from, at, _) => at == from
    case NextEntry(from, at, _, entry, entries) => at == from && TightEntry(entry) && TightEntries(entries)
  }

  // ---------------------------------------------------------------- tokens

  lemma TokenExpected(t: Bytes, from: nat, at: nat, c: byte)
    requires Token(t, from, at, c) && !SpaceOctet(c)
    ensures SkipSpace(t, from) == at == SkipSpace(t, at)
    ensures forall d: byte :: Expect(t, from, d) == if d == c then (true, at + 1) else (false, at)
    ensures forall d: byte :: Expect(t, at, d) == if d == c then (true, at + 1) else (false, at)
  {
    SpaceIsSkipped(t, from, t[from..at]);
    SpaceIsSkipped(t, at, []);
  }

  /** What `expect` found, as a token. */
  lemma ExpectedToken(t: Bytes, from: nat, c: byte)
    requires from <= |t|
    ensures var (found, n) := Expect(t, from, c);
            if found then n > 0 && Token(t, from, n - 1, c) else n == SkipSpace(t, from) && CharAt(t, n) != c
  {
    SkippedIsSpace(t, from);
  }

  lemma SameAfterSpace(t: Bytes, p: nat)
    requires p <= |t|
    ensures ParseValue(t, p) == ParseValue(t, SkipSpace(t, p))
    ensures ParseKey(t, p) == ParseKey(t, SkipSpace(t, p))
  {
    SkippedIsSpace(t, p);
  }

  // ---------------------------------------------------------------- scalars

  lemma {:induction false} WordMatched(t: Bytes, p: nat, s: Bytes)
    requires p <= |t|
    ensures Match(t, p, s).0 <==> At(t, p, s)
    ensures Match(t, p, s).0 ==> Match(t, p, s).1 == p + |s|
    decreases |s|
  {
    if s != [] {
      assert s == [s[0]] + s[1..];
      if CharAt(t, p) == s[0] {
        WordMatched(t, p + 1, s[1..]);
        if At(t, p + 1, s[1..]) {
          CharThere(t, p, s[0], s[1..]);
        }
      }
      if At(t, p, s) {
        AtChar(t, p, s[0], s[1..]);
      }
    }
  }

  /** A word at its first letter. */
  lemma WordAt(t: Bytes, at: nat, v: Value, tail: Bytes)
    requires (v.Null? || v.Bool?) && tail == WordText(v)[1..]
    ensures At(t, at, WordText(v)) <==> at < |t| && t[at] == WordText(v)[0] && At(t, at + 1, tail)
    ensures v.Null? ==> tail == NULL_TAIL
    ensures v == Bool(true) ==> tail == TRUE_TAIL
    ensures v == Bool(false) ==> tail == FALSE_TAIL
  {
    var c := WordText(v)[0];
    assert WordText(v) == [c] + tail;
    if At(t, at, WordText(v)) {
      AtChar(t, at, c, tail);
    }
    if at < |t| && t[at] == c && At(t, at + 1, tail) {
      CharThere(t, at, c, tail);
    }
  }

  lemma WordParsed(t: Bytes, from: nat, at: nat, to: nat, v: Value)
    requires WordFits(t, from, at, to, v)
    ensures ParseValue(t, from) == Ok(v, to)
  {
    var tail := WordText(v)[1..];
    assert At(t, at, WordText(v));
    WordAt(t, at, v, tail);
    WordMatched(t, at + 1, tail);
    assert Token(t, from, at, WordText(v)[0]);
    TokenExpected(t, from, at, WordText(v)[0]);
  }

  lemma {:induction false} NumberEndIs(t: Bytes, p: nat, q: nat)
    requires p <= q <= |t| && AllNumberOctets(t[p..q]) && !NumberOctet(CharAt(t, q))
    ensures NumberEnd(t, p) == q
    decreases q - p
  {
    if p < q {
      assert NumberOctet(t[p..q][0]);
      assert t[p + 1 .. q] == t[p..q][1..];
      NumberEndIs(t, p + 1, q);
    }
  }

  lemma NumberParsed(t: Bytes, from: nat, at: nat, to: nat, n: Numeral)
    requires NumberFits(t, from, at, to, n)
    ensures ParseValue(t, from) == Ok(Num(n.Amount()), to)
  {
    NumberBegins(t, from, at, to, n);
    NumeralOctets(n);
    NumberEndIs(t, at, to);
    NumeralIsScanned(n);
    ReadAsNumber(t, from, at, to, n.Amount());
  }

  lemma NumberBegins(t: Bytes, from: nat, at: nat, to: nat, n: Numeral)
    requires NumberFits(t, from, at, to, n)
    ensures at < |t| && (IsDigit(t[at]) || t[at] == MINUS) && Token(t, from, at, t[at])
  {
    var s := n.Text();
    assert t[at..to][0] == s[0] == if n.sign != [] then n.sign[0] else n.whole[0];
  }

  lemma ReadAsNumber(t: Bytes, from: nat, at: nat, to: nat, x: real)
    requires at < |t| && (IsDigit(t[at]) || t[at] == MINUS) && Token(t, from, at, t[at])
    requires NumberEnd(t, at) == to && Strtod(t[at..to]) == Some(x)
    ensures ParseValue(t, from) == Ok(Num(x), to)
  {
    TokenExpected(t, from, at, t[at]);
    assert ParseScalar(t, at) == Ok(Num(x), to);
  }

  lemma StringRead(t: Bytes, from: nat, at: nat, to: nat, ps: seq<Piece>)
    requires StringFits(t, from, at, to, ps)
    ensures StringBody(t, at + 1, []) == Ok(Meanings(ps), to)
    ensures SkipSpace(t, from) == at && Expect(t, from, QUOTE) == (true, at + 1)
  {
    TokenExpected(t, from, at, 0x22);
    LiteralIsAccepted(t, at + 1, ps, [], BodyAt(t, at + 1, []));
    assert [] + Meanings(ps) == Meanings(ps);
  }

  lemma QuotesRead(t: Bytes, from: nat, at: nat, to: nat, s: Bytes)
    requires Quotes(t, from, at, to, s)
    ensures Token(t, from, at, 0x22) && StringBody(t, at + 1, []) == Ok(s, to)
  {
    var ps :| StringFits(t, from, at, to, ps) && Meanings(ps) == s;
    StringRead(t, from, at, to, ps);
  }

  lemma StringParsed(t: Bytes, from: nat, at: nat, to: nat, s: Bytes)
    requires Token(t, from, at, 0x22) && StringBody(t, at + 1, []) == Ok(s, to)
    ensures ParseValue(t, from) == Ok(Str(s), to)
  {
    TokenExpected(t, from, at, 0x22);
  }

  lemma EmptyParsed(t: Bytes, from: nat, at: nat, to: nat)
    ensures EmptyFits(t, from, at, to, 0x5b, 0x5d) ==> ParseValue(t, from) == Ok(Arr([]), to)
    ensures EmptyFits(t, from, at, to, 0x7b, 0x7d) ==> ParseValue(t, from) == Ok(Obj([]), to)
  {
    if EmptyFits(t, from, at, to, 0x5b, 0x5d) {
      TokenExpected(t, from, at, 0x5b);
      TokenExpected(t, at + 1, to - 1, 0x5d);
    }
    if EmptyFits(t, from, at, to, 0x7b, 0x7d) {
      TokenExpected(t, from, at, 0x7b);
      TokenExpected(t, at + 1, to - 1, 0x7d);
    }
  }

  lemma LeafParsed(t: Bytes, from: nat, at: nat, to: nat, v: Value)
    requires LeafFits(t, from, at, to, v)
    ensures ParseValue(t, from) == Ok(v, to)
  {
    match v
    case Null => WordParsed(t, from, at, to, v);
    case Bool(_) => WordParsed(t, from, at, to, v);
    case Num(x) =>
      var n :| NumberFits(t, from, at, to, n) && n.Amount() == x;
      NumberParsed(t, from, at, to, n);
    case Str(s) =>
      QuotesRead(t, from, at, to, s);
      StringParsed(t, from, at, to, s);
    case Arr(_) => EmptyParsed(t, from, at, to);
    case Obj(_) => EmptyParsed(t, from, at, to);
  }

  /** The first character of a value is no closing bracket, and white space stands before it. */
  predicate Starts(t: Bytes, from: nat, at: nat) {
    at < |t| && Token(t, from, at, t[at]) && !SpaceOctet(t[at]) && t[at] != 0x5d
  }

  lemma LeafStarts(t: Bytes, from: nat, at: nat, to: nat, v: Value)
    requires LeafFits(t, from, at, to, v)
    ensures Starts(t, from, at)
  {
    match v
    case Null => FirstOf(t, at, to);
    case Bool(_) => FirstOf(t, at, to);
    case Num(x) =>
      var n :| NumberFits(t, from, at, to, n) && n.Amount() == x;
      NumeralOctets(n);
      FirstOf(t, at, to);
    case Str(s) => QuotesRead(t, from, at, to, s);
    case _ =>
  }

  lemma FirstOf(t: Bytes, at: nat, to: nat)
    ensures at < to <= |t| ==> t[at..to][0] == t[at]
  {
  }

  // ---------------------------------------------------------------- a text that fits is parsed

  lemma TreeStarts(t: Bytes, l: Tree)
    requires Fits(t, l)
    ensures Starts(t, l.from, l.at)
  {
    if l.Leaf? {
      LeafStarts(t, l.from, l.at, l.to, l.value);
    }
  }

  lemma ListEnds(t: Bytes, n: nat, items: seq<Value>, at: nat)
    requires Token(t, n, at, 0x5d)
    ensures AfterItem(t, n, items) == Ok(Arr(items), at + 1)
  {
    TokenExpected(t, n, at, 0x5d);
  }

  lemma ListGoesOn(t: Bytes, n: nat, items: seq<Value>, at: nat, v: Value, next: nat)
    requires Token(t, n, at, 0x2c) && ParseValue(t, at + 1) == Ok(v, next)
    ensures AfterItem(t, n, items) == AfterItem(t, next, items + [v])
  {
    TokenExpected(t, n, at, 0x2c);
    assert AfterItem(t, n, items) == ParseItems(t, at + 1, items);
  }

  /** The look for the closing bracket skips the white space before the first item. */
  lemma ListOpens(t: Bytes, from: nat, at: nat, q: nat, v: Value, n: nat)
    requires Token(t, from, at, 0x5b) && Starts(t, at + 1, q) && ParseValue(t, at + 1) == Ok(v, n)
    ensures ParseValue(t, from) == AfterItem(t, n, [] + [v])
  {
    TokenExpected(t, at + 1, q, t[q]);
    SameAfterSpace(t, at + 1);
    BracketOpens(t, from, at);
    assert ParseArray(t, at + 1) == ParseItems(t, q, []);
  }

  lemma BracketOpens(t: Bytes, from: nat, at: nat)
    ensures Token(t, from, at, 0x5b) ==> ParseValue(t, from) == ParseArray(t, at + 1)
    ensures Token(t, from, at, 0x7b) ==> ParseValue(t, from) == ParseObject(t, at + 1)
  {
    if Token(t, from, at, 0x5b) { TokenExpected(t, from, at, 0x5b); }
    if Token(t, from, at, 0x7b) { TokenExpected(t, from, at, 0x7b); }
  }

  /** A text that a tree fits is parsed, to its meaning and up to its end. */
  lemma {:induction false} FittingIsParsed(t: Bytes, l: Tree)
    requires Fits(t, l)
    ensures ParseValue(t, l.from) == Ok(Meaning(l), l.to)
    decreases l, 1
  {
    match l
    case Leaf(from, at, to, v) => LeafParsed(t, from, at, to, v);
    case List(_, _, _, _, _) => ListParsed(t, l, ParseValue(t, l.from));
    case Map(_, _, _, _, _) => MapParsed(t, l, ParseValue(t, l.from));
  }

  lemma {:induction false} ListParsed(t: Bytes, l: Tree, res: Res<Value>)
    requires l.List? && Fits(t, l) && res == ParseValue(t, l.from)
    ensures res == Ok(Meaning(l), l.to)
    decreases l, 0
  {
    var v, vs := Meaning(l.item), RestMeaning(l.rest);
    FittingIsParsed(t, l.item);
    TreeStarts(t, l.item);
    ListOpens(t, l.from, l.at, l.item.at, v, l.item.to);
    RestParsed(t, [] + [v], l.rest, res);
    NothingBefore(v, vs);
  }

  /** What follows an item is parsed with it.  `res` is what the item loop makes of the rest. */
  lemma {:induction false} RestParsed(t: Bytes, items: seq<Value>, r: Rest, res: Res<Value>)
    requires RestFits(t, r) && r.from <= |t| && res == AfterItem(t, r.from, items)
    ensures res == Ok(Arr(items + RestMeaning(r)), r.to)
    decreases r, 0
  {
    match r
    case EndList(from, at, to) =>
      ListEnds(t, from, items, at);
      assert items + [] == items;
    case NextItem(from, at, to, item, rest) =>
      var v := Meaning(item);
      FittingIsParsed(t, item);
      ListGoesOn(t, from, items, at, v, item.to);
      RestParsed(t, items + [v], rest, res);
      Regroup(items, v, RestMeaning(rest));
  }

  lemma Regroup(items: seq<Value>, v: Value, rest: seq<Value>)
    ensures items + [v] + rest == items + ([v] + rest)
  {
  }

  /** `body` is what the string parser makes of the text behind the opening quote. */
  lemma KeyRead(t: Bytes, from: nat, at: nat, keyEnd: nat, colon: nat, key: Bytes, body: Res<Bytes>)
    requires Token(t, from, at, 0x22) && Token(t, keyEnd, colon, 0x3a)
    requires body == StringBody(t, at + 1, []) && body == Ok(key, keyEnd)
    ensures ParseKey(t, from) == ParseKey(t, at) == Ok(key, colon + 1)
  {
    TokenExpected(t, from, at, 0x22);
    TokenExpected(t, keyEnd, colon, 0x3a);
  }

  lemma KeyThenValue(t: Bytes, p: nat, key: Bytes, q: nat, v: Value, n: nat)
    requires p <= |t| && ParseKey(t, p) == Ok(key, q) && ParseValue(t, q) == Ok(v, n)
    ensures ParseMember(t, p) == Ok(Field(key, v), n)
  {
  }

  lemma {:induction false} EntryParsed(t: Bytes, e: Entry)
    requires EntryFits(t, e)
    ensures ParseMember(t, e.from) == ParseMember(t, e.at) == Ok(EntryMeaning(e), e.to)
    decreases e, 0
  {
    QuotesRead(t, e.from, e.at, e.keyEnd, e.key);
    KeyRead(t, e.from, e.at, e.keyEnd, e.colon, e.key, StringBody(t, e.at + 1, []));
    FittingIsParsed(t, e.value);
    KeyThenValue(t, e.from, e.key, e.colon + 1, Meaning(e.value), e.to);
    KeyThenValue(t, e.at, e.key, e.colon + 1, Meaning(e.value), e.to);
  }

  lemma {:induction false} MapParsed(t: Bytes, l: Tree, res: Res<Value>)
    requires l.Map? && Fits(t, l) && res == ParseValue(t, l.from)
    ensures res == Ok(Meaning(l), l.to)
    decreases l, 0
  {
    EntryParsed(t, l.entry);
    QuotesRead(t, l.entry.from, l.entry.at, l.entry.keyEnd, l.entry.key);
    MapOpens(t, l.from, l.at, l.entry.at);
    EntriesParsed(t, Assign([], EntryMeaning(l.entry)), l.entries, res);
  }

  lemma MapOpens(t: Bytes, from: nat, at: nat, q: nat)
    requires Token(t, from, at, 0x7b) && Token(t, at + 1, q, 0x22)
    ensures ParseValue(t, from) == ParseMembers(t, q, [])
  {
    TokenExpected(t, at + 1, q, 0x22);
    BracketOpens(t, from, at);
    assert ParseObject(t, at + 1) == ParseMembers(t, q, []);
  }

  lemma MapEnds(t: Bytes, n: nat, fields: seq<Field>, at: nat)
    requires Token(t, n, at, 0x7d)
    ensures AfterMember(t, n, fields) == Ok(Obj(fields), at + 1)
  {
    TokenExpected(t, n, at, 0x7d);
  }

  lemma MapGoesOn(t: Bytes, n: nat, fields: seq<Field>, at: nat, f: Field, next: nat, res: Res<Value>)
    requires n <= |t| && res == AfterMember(t, n, fields)
    requires Token(t, n, at, 0x2c) && ParseMember(t, at + 1) == Ok(f, next)
    ensures next <= |t| && res == AfterMember(t, next, Assign(fields, f))
  {
    TokenExpected(t, n, at, 0x2c);
    assert res == ParseMembers(t, at + 1, fields);
  }

  lemma NextFits(t: Bytes, fields: seq<Field>, es: Entries)
    requires es.NextEntry? && EntriesFit(t, es)
    ensures EntryFits(t, es.entry) && EntriesFit(t, es.entries) && Token(t, es.from, es.at, 0x2c)
    ensures es.entry.from == es.at + 1 && es.entries.from == es.entry.to && es.to == es.entries.to
    ensures EntriesMeaning(fields, es) == EntriesMeaning(Assign(fields, EntryMeaning(es.entry)), es.entries)
  {
  }

  lemma LastFits(t: Bytes, fields: seq<Field>, es: Entries)
    requires es.EndMap? && EntriesFit(t, es)
    ensures Token(t, es.from, es.at, 0x7d) && es.to == es.at + 1 && EntriesMeaning(fields, es) == fields
  {
  }

  /** `res` is what the member loop makes of the rest. */
  lemma {:induction false} EntriesParsed(t: Bytes, fields: seq<Field>, es: Entries, res: Res<Value>)
    requires EntriesFit(t, es) && es.from <= |t| && res == AfterMember(t, es.from, fields)
    ensures res == Ok(Obj(EntriesMeaning(fields, es)), es.to)
    decreases es, 0
  {
    if es.EndMap? {
      LastFits(t, fields, es);
      MapEnds(t, es.from, fields, es.at);
    } else {
      NextFits(t, fields, es);
      NextParsed(t, es.from, es.at, fields, es.entry, res);
      EntriesParsed(t, Assign(fields, EntryMeaning(es.entry)), es.entries, res);
    }
  }

  lemma {:induction false} NextParsed(t: Bytes, n: nat, at: nat, fields: seq<Field>, e: Entry, res: Res<Value>)
    requires EntryFits(t, e) && Token(t, n, at, 0x2c) && e.from == at + 1 && res == AfterMember(t, n, fields)
    ensures e.to <= |t| && res == AfterMember(t, e.to, Assign(fields, EntryMeaning(e)))
    decreases e, 1
  {
    EntryParsed(t, e);
    MapGoesOn(t, n, fields, at, EntryMeaning(e), e.to, res);
  }

  // ---------------------------------------------------------------- what is parsed fits a tree

  lemma SpaceJoins(t: Bytes, a: nat, b: nat, c: nat)
    requires a <= b <= c <= |t| && AllSpace(t[a..b]) && AllSpace(t[b..c])
    ensures AllSpace(t[a..c])
  {
    assert t[a..c] == t[a..b] + t[b..c];
  }

  /** White space may be added in front. */
  lemma LeafWidens(t: Bytes, from: nat, from': nat, at: nat, to: nat, v: Value)
    requires from <= from' <= |t| && AllSpace(t[from..from']) && LeafFits(t, from', at, to, v)
    ensures LeafFits(t, from, at, to, v)
  {
    LeafStarts(t, from', at, to, v);
    SpaceJoins(t, from, from', at);
    match v
    case Num(x) =>
      var n :| NumberFits(t, from', at, to, n) && n.Amount() == x;
      assert NumberFits(t, from, at, to, n);
    case Str(s) =>
      var ps :| StringFits(t, from', at, to, ps) && Meanings(ps) == s;
      assert StringFits(t, from, at, to, ps);
    case _ =>
  }

  lemma TreeWidens(t: Bytes, from: nat, l: Tree)
    requires from <= l.from <= |t| && AllSpace(t[from..l.from]) && Fits(t, l)
    ensures Fits(t, l.(from := from)) && Meaning(l.(from := from)) == Meaning(l)
  {
    if l.Leaf? {
      LeafWidens(t, from, l.from, l.at, l.to, l.value);
    } else {
      SpaceJoins(t, from, l.from, l.at);
    }
  }

  lemma EntryWidens(t: Bytes, from: nat, e: Entry)
    requires from <= e.from <= |t| && AllSpace(t[from..e.from]) && EntryFits(t, e)
    ensures EntryFits(t, e.(from := from)) && EntryMeaning(e.(from := from)) == EntryMeaning(e)
  {
    var ps :| StringFits(t, e.from, e.at, e.keyEnd, ps) && Meanings(ps) == e.key;
    SpaceJoins(t, from, e.from, e.at);
    assert StringFits(t, from, e.at, e.keyEnd, ps);
  }

  lemma WordIsLeaf(t: Bytes, p: nat, q: nat, v: Value, tail: Bytes)
    requires p <= q < |t| && AllSpace(t[p..q]) && (v.Null? || v.Bool?) && tail == WordText(v)[1..]
    requires t[q] == WordText(v)[0] && Keyword(t, q + 1, tail, v).Ok?
    ensures Keyword(t, q + 1, tail, v).value == v && LeafFits(t, p, q, Keyword(t, q + 1, tail, v).next, v)
  {
    WordMatched(t, q + 1, tail);
    WordAt(t, q, v, tail);
  }

  lemma NumberIsLeaf(t: Bytes, p: nat, q: nat, res: Res<real>)
    requires p <= q < |t| && AllSpace(t[p..q]) && (IsDigit(t[q]) || t[q] == MINUS)
    requires res == JsonGrammar.Number(t, q) && res.Ok?
    ensures Amounts(t, p, q, res.next, res.value)
  {
    var n := NumberEnd(t, q);
    var s := t[q..n];
    ScannedIsNumeral(s);
    var numeral := ScanNumeral(s).value;
    NumberNotEmpty(t, q);
    assert s[0] == t[q];
    NumeralBegins(numeral, s);
    assert NumberFits(t, p, q, n, numeral);
  }

  lemma NumberNotEmpty(t: Bytes, q: nat)
    requires q < |t| && (IsDigit(t[q]) || t[q] == MINUS)
    ensures NumberEnd(t, q) > q && !NumberOctet(CharAt(t, NumberEnd(t, q)))
  {
  }

  lemma NumeralBegins(n: Numeral, s: Bytes)
    requires n.Valid() && s == n.Text() && s != [] && (IsDigit(s[0]) || s[0] == 0x2d)
    ensures n.sign == [0x2d] || (n.sign == [] && n.whole != [])
  {
    if n.sign != [] {
      assert s[0] == n.sign[0];
    } else if n.whole == [] {
      PointFirst(n);
    }
  }

  lemma PointFirst(n: Numeral)
    requires n.Valid() && n.sign == [] && n.whole == []
    ensures n.Text() != [] && n.Text()[0] == 0x2e
  {
    assert n.Text() == PointText(n.fraction) + ExponentText(n.exponent);
  }

  lemma StringIsLeaf(t: Bytes, p: nat, q: nat, body: Res<Bytes>)
    requires p <= q < |t| && AllSpace(t[p..q]) && t[q] == 0x22
    requires body == StringBody(t, q + 1, []) && body.Ok?
    ensures Quotes(t, p, q, body.next, body.value)
  {
    var ps := AcceptedIsLiteral(t, q + 1, [], BodyAt(t, q + 1, []));
    assert [] + Meanings(ps) == Meanings(ps);
    assert StringFits(t, p, q, body.next, ps);
  }

  lemma ScalarIsLeaf(t: Bytes, p: nat, q: nat, res: Res<Value>)
    requires p <= |t| && q == SkipSpace(t, p) && res == ParseScalar(t, q) && res.Ok?
    ensures LeafFits(t, p, q, res.next, res.value)
  {
    SkippedIsSpace(t, p);
    var c := CharAt(t, q);
    if c == LOWER_N { WordIsLeaf(t, p, q, Null, NULL_TAIL); }
    else if c == LOWER_F { WordIsLeaf(t, p, q, Bool(false), FALSE_TAIL); }
    else if c == LOWER_T { WordIsLeaf(t, p, q, Bool(true), TRUE_TAIL); }
    else if c == QUOTE { StringIsLeaf(t, p, q, StringBody(t, q + 1, [])); }
    else { NumberIsLeaf(t, p, q, JsonGrammar.Number(t, q)); }
  }

  /** Whatever is accepted fits a tree, with that meaning and that end.  `res` is what the parser
      makes of the text at `p`. */
  lemma {:induction false} ParsedFits(t: Bytes, p: nat, res: Res<Value>) returns (l: Tree)
    requires p <= |t| && res == ParseValue(t, p) && res.Ok?
    ensures Fits(t, l) && l.from == p && res == Ok(Meaning(l), l.to)
    decreases |t| - p, 2
  {
    var q := SkipSpace(t, p);
    SkippedIsSpace(t, p);
    var c := CharAt(t, q);
    if c == OPEN_BRACKET {
      l := ArrayFits(t, p, q, res);
    } else if c == OPEN_BRACE {
      l := ObjectFits(t, p, q, res);
    } else {
      ScalarIsLeaf(t, p, q, res);
      l := Leaf(p, q, res.next, res.value);
    }
  }

  lemma {:induction false} ArrayFits(t: Bytes, p: nat, q: nat, res: Res<Value>) returns (l: Tree)
    requires Token(t, p, q, 0x5b) && res == ParseArray(t, q + 1) && res.Ok?
    ensures Fits(t, l) && l.from == p && res == Ok(Meaning(l), l.to)
    decreases |t| - p, 1
  {
    var empty, m := AfterOpening(t, q, CLOSE_BRACKET);
    if empty {
      l := Leaf(p, q, m, Arr([]));
    } else {
      var item, rest := ItemsFit(t, m, [], res);
      l := ListFrom(t, p, q, item, rest);
      NothingBefore(Meaning(item), RestMeaning(rest));
    }
  }

  lemma NothingBefore(v: Value, vs: seq<Value>)
    ensures [] + [v] + vs == [v] + vs
  {
  }

  /** Behind an opening bracket: the closing one, or the first item or entry behind white space. */
  lemma AfterOpening(t: Bytes, q: nat, close: byte) returns (empty: bool, m: nat)
    requires q < |t|
    ensures Expect(t, q + 1, close) == (empty, m) && q + 1 <= m <= |t|
    ensures if empty then Token(t, q + 1, m - 1, close) else AllSpace(t[q + 1 .. m])
    ensures close == CLOSE_BRACKET ==> ParseArray(t, q + 1) == if empty then Ok(Arr([]), m) else ParseItems(t, m, [])
    ensures close == CLOSE_BRACE ==> ParseObject(t, q + 1) == if empty then Ok(Obj([]), m) else ParseMembers(t, m, [])
  {
    ExpectedToken(t, q + 1, close);
    SkippedIsSpace(t, q + 1);
    empty, m := Expect(t, q + 1, close).0, Expect(t, q + 1, close).1;
  }

  lemma ListFrom(t: Bytes, p: nat, q: nat, item: Tree, rest: Rest) returns (l: Tree)
    requires Token(t, p, q, 0x5b) && q + 1 <= item.from <= |t| && AllSpace(t[q + 1 .. item.from])
    requires Fits(t, item) && RestFits(t, rest) && rest.from == item.to
    ensures Fits(t, l) && l.from == p && l.to == rest.to && Meaning(l) == Arr([Meaning(item)] + RestMeaning(rest))
  {
    TreeWidens(t, q + 1, item);
    l := List(p, q, rest.to, item.(from := q + 1), rest);
  }

  lemma {:induction false} ItemsFit(t: Bytes, p: nat, acc: seq<Value>, res: Res<Value>) returns (item: Tree, rest: Rest)
    requires p <= |t| && res == ParseItems(t, p, acc) && res.Ok?
    ensures Fits(t, item) && item.from == p && RestFits(t, rest) && rest.from == item.to
    ensures res == Ok(Arr(acc + [Meaning(item)] + RestMeaning(rest)), rest.to)
    decreases |t| - p, 3
  {
    item := ParsedFits(t, p, ParseValue(t, p));
    rest := RestOfItems(t, item.to, acc + [Meaning(item)], res);
  }

  lemma {:induction false} RestOfItems(t: Bytes, n: nat, items: seq<Value>, res: Res<Value>) returns (rest: Rest)
    requires n <= |t| && res == AfterItem(t, n, items) && res.Ok?
    ensures RestFits(t, rest) && rest.from == n && res == Ok(Arr(items + RestMeaning(rest)), rest.to)
    decreases |t| - n, 0
  {
    var more, m := ItemFollows(t, n, items, res);
    if more {
      var item, tail := ItemsFit(t, m, items, res);
      rest := ItemBefore(t, n, m, item, tail);
      Regroup(items, Meaning(item), RestMeaning(tail));
    } else {
      rest := EndList(n, m - 1, m);
      assert items + [] == items;
    }
  }

  lemma ItemBefore(t: Bytes, n: nat, m: nat, item: Tree, tail: Rest) returns (rest: Rest)
    requires 0 < m && Token(t, n, m - 1, 0x2c) && Fits(t, item) && item.from == m
    requires RestFits(t, tail) && tail.from == item.to
    ensures RestFits(t, rest) && rest.from == n && rest.to == tail.to
    ensures RestMeaning(rest) == [Meaning(item)] + RestMeaning(tail)
  {
    rest := NextItem(n, m - 1, tail.to, item, tail);
  }

  /** Behind an item: the comma, or the closing bracket. */
  lemma ItemFollows(t: Bytes, n: nat, items: seq<Value>, res: Res<Value>) returns (more: bool, m: nat)
    requires n <= |t| && res == AfterItem(t, n, items) && res.Ok?
    ensures n < m <= |t| && Token(t, n, m - 1, if more then 0x2c else 0x5d)
    ensures res == if more then ParseItems(t, m, items) else Ok(Arr(items), m)
  {
    ExpectedToken(t, n, COMMA);
    SkippedIsSpace(t, n);
    more, m := Expect(t, n, COMMA).0, Expect(t, n, COMMA).1;
    if !more {
      m := m + 1;
    }
  }

  lemma {:induction false} ObjectFits(t: Bytes, p: nat, q: nat, res: Res<Value>) returns (l: Tree)
    requires Token(t, p, q, 0x7b) && res == ParseObject(t, q + 1) && res.Ok?
    ensures Fits(t, l) && l.from == p && res == Ok(Meaning(l), l.to)
    decreases |t| - p, 1
  {
    var empty, m := AfterOpening(t, q, CLOSE_BRACE);
    if empty {
      l := Leaf(p, q, m, Obj([]));
    } else {
      var entry, entries := MembersFit(t, m, [], res);
      l := MapFrom(t, p, q, entry, entries);
    }
  }

  lemma MapFrom(t: Bytes, p: nat, q: nat, entry: Entry, entries: Entries) returns (l: Tree)
    requires Token(t, p, q, 0x7b) && q + 1 <= entry.from <= |t| && AllSpace(t[q + 1 .. entry.from])
    requires EntryFits(t, entry) && EntriesFit(t, entries) && entries.from == entry.to
    ensures Fits(t, l) && l.from == p && l.to == entries.to
    ensures Meaning(l) == Obj(EntriesMeaning(Assign([], EntryMeaning(entry)), entries))
  {
    EntryWidens(t, q + 1, entry);
    l := Map(p, q, entries.to, entry.(from := q + 1), entries);
  }

  lemma {:induction false} MemberFits(t: Bytes, p: nat, res: Res<Field>) returns (e: Entry)
    requires p <= |t| && res == ParseMember(t, p) && res.Ok?
    ensures EntryFits(t, e) && e.from == p && res == Ok(EntryMeaning(e), e.to)
    decreases |t| - p, 3
  {
    var key, v := MemberParts(t, p, res);
    e := EntryOfParts(t, p, key, v, res.value);
  }

  lemma {:induction false} EntryOfParts(t: Bytes, p: nat, key: Res<Bytes>, v: Res<Value>, f: Field) returns (e: Entry)
    requires p <= |t| && key == ParseKey(t, p) && key.Ok? && p < key.next <= |t| && key.value == f.key
    requires v == ParseValue(t, key.next) && v.Ok? && v.value == f.value
    ensures EntryFits(t, e) && e.from == p && e.to == v.next && EntryMeaning(e) == f
    decreases |t| - p, 2
  {
    var value := ParsedFits(t, key.next, v);
    e := EntryOfKey(t, p, key, f, value);
  }

  lemma EntryOfKey(t: Bytes, p: nat, key: Res<Bytes>, f: Field, value: Tree) returns (e: Entry)
    requires p <= |t| && key == ParseKey(t, p) && key.Ok? && key.value == f.key
    requires Fits(t, value) && value.from == key.next && Meaning(value) == f.value
    ensures EntryFits(t, e) && e.from == p && e.to == value.to && EntryMeaning(e) == f
  {
    var at, keyEnd, colon := KeyStands(t, p, key);
    e := Entry(p, at, keyEnd, colon, value.to, f.key, value);
  }

  lemma MemberParts(t: Bytes, p: nat, res: Res<Field>) returns (key: Res<Bytes>, v: Res<Value>)
    requires p <= |t| && res == ParseMember(t, p) && res.Ok?
    ensures key.Ok? && key == ParseKey(t, p) && p < key.next <= |t| && v.Ok? && v == ParseValue(t, key.next)
    ensures res == Ok(Field(key.value, v.value), v.next)
  {
    key := ParseKey(t, p);
    v := ParseValue(t, key.next);
  }

  lemma EntryFrom(t: Bytes, p: nat, at: nat, keyEnd: nat, colon: nat, f: Field, value: Tree) returns (e: Entry)
    requires Quotes(t, p, at, keyEnd, f.key) && Token(t, keyEnd, colon, 0x3a)
    requires Fits(t, value) && value.from == colon + 1 && Meaning(value) == f.value
    ensures e == Entry(p, at, keyEnd, colon, value.to, f.key, value)
    ensures EntryFits(t, e) && EntryMeaning(e) == f
  {
    e := Entry(p, at, keyEnd, colon, value.to, f.key, value);
  }

  lemma KeyStands(t: Bytes, p: nat, res: Res<Bytes>) returns (at: nat, keyEnd: nat, colon: nat)
    requires p <= |t| && res == ParseKey(t, p) && res.Ok?
    ensures Quotes(t, p, at, keyEnd, res.value) && p <= at < keyEnd
    ensures Token(t, keyEnd, colon, 0x3a) && res.next == colon + 1
  {
    ExpectedToken(t, p, QUOTE);
    at := Expect(t, p, QUOTE).1 - 1;
    var body := StringBody(t, at + 1, []);
    keyEnd, colon := ColonStands(t, p, at, body, res);
    StringIsLeaf(t, p, at, body);
  }

  lemma ColonStands(t: Bytes, p: nat, at: nat, body: Res<Bytes>, res: Res<Bytes>) returns (keyEnd: nat, colon: nat)
    requires p <= at < |t| && Expect(t, p, QUOTE) == (true, at + 1) && body == StringBody(t, at + 1, [])
    requires res == ParseKey(t, p) && res.Ok?
    ensures body == Ok(res.value, keyEnd) && Token(t, keyEnd, colon, 0x3a) && res.next == colon + 1
  {
    keyEnd := body.next;
    ExpectedToken(t, keyEnd, COLON);
    colon := Expect(t, keyEnd, COLON).1 - 1;
  }

  lemma {:induction false} MembersFit(t: Bytes, p: nat, acc: seq<Field>, res: Res<Value>)
    returns (entry: Entry, entries: Entries)
    requires p <= |t| && res == ParseMembers(t, p, acc) && res.Ok?
    ensures EntryFits(t, entry) && entry.from == p && EntriesFit(t, entries) && entries.from == entry.to
    ensures res == Ok(Obj(EntriesMeaning(Assign(acc, EntryMeaning(entry)), entries)), entries.to)
    decreases |t| - p, 4
  {
    entry := MemberFits(t, p, ParseMember(t, p));
    entries := RestOfMembers(t, entry.to, Assign(acc, EntryMeaning(entry)), res);
  }

  lemma {:induction false} RestOfMembers(t: Bytes, n: nat, fields: seq<Field>, res: Res<Value>) returns (entries: Entries)
    requires n <= |t| && res == AfterMember(t, n, fields) && res.Ok?
    ensures EntriesFit(t, entries) && entries.from == n
    ensures res == Ok(Obj(EntriesMeaning(fields, entries)), entries.to)
    decreases |t| - n, 0
  {
    var more, m := MemberFollows(t, n, fields, res);
    if more {
      var entry, tail := MembersFit(t, m, fields, res);
      entries := EntryBefore(t, n, m, fields, entry, tail);
    } else {
      entries := EndMap(n, m - 1, m);
    }
  }

  lemma EntryBefore(t: Bytes, n: nat, m: nat, fields: seq<Field>, entry: Entry, tail: Entries) returns (entries: Entries)
    requires 0 < m && Token(t, n, m - 1, 0x2c) && EntryFits(t, entry) && entry.from == m
    requires EntriesFit(t, tail) && tail.from == entry.to
    ensures EntriesFit(t, entries) && entries.from == n && entries.to == tail.to
    ensures EntriesMeaning(fields, entries) == EntriesMeaning(Assign(fields, EntryMeaning(entry)), tail)
  {
    entries := NextEntry(n, m - 1, tail.to, entry, tail);
  }

  /** Behind a member: the comma, or the closing brace. */
  lemma MemberFollows(t: Bytes, n: nat, fields: seq<Field>, res: Res<Value>) returns (more: bool, m: nat)
    requires n <= |t| && res == AfterMember(t, n, fields) && res.Ok?
    ensures n < m <= |t| && Token(t, n, m - 1, if more then 0x2c else 0x7d)
    ensures res == if more then ParseMembers(t, m, fields) else Ok(Obj(fields), m)
  {
    ExpectedToken(t, n, COMMA);
    SkippedIsSpace(t, n);
    more, m := Expect(t, n, COMMA).0, Expect(t, n, COMMA).1;
    if !more {
      m := m + 1;
    }
  }

  // ---------------------------------------------------------------- the language

  /** The text is accepted as the value `v`, up to position `n`, if and only if a tree fits it that
      means `v` and ends at `n`. */
  lemma AcceptedIff(t: Bytes, p: nat, v: Value, n: nat)
    requires p <= |t|
    ensures ParseValue(t, p) == Ok(v, n) <==> exists l :: Fits(t, l) && l.from == p && Meaning(l) == v && l.to == n
  {
    if ParseValue(t, p) == Ok(v, n) {
      var l := ParsedFits(t, p, ParseValue(t, p));
    }
    if l :| Fits(t, l) && l.from == p && Meaning(l) == v && l.to == n {
      FittingIsParsed(t, l);
    }
  }
}
