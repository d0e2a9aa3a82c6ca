/** JSON values as picojson keeps them, and the bytes JSON text is made of. */
module JsonValue {
  import opened Basics

  type Bytes = seq<byte>

  const TAB: byte := 0x09
  const NEWLINE: byte := 0x0a
  const RETURN: byte := 0x0d
  const SPACE: byte := 0x20
  const QUOTE: byte := 0x22
  const PLUS: byte := 0x2b
  const COMMA: byte := 0x2c
  const MINUS: byte := 0x2d
  const DOT: byte := 0x2e
  const SLASH: byte := 0x2f
  const ZERO: byte := 0x30
  const COLON: byte := 0x3a
  const UPPER_E: byte := 0x45
  const OPEN_BRACKET: byte := 0x5b
  const BACKSLASH: byte := 0x5c
  const CLOSE_BRACKET: byte := 0x5d
  const LOWER_E: byte := 0x65
  const LOWER_F: byte := 0x66
  const LOWER_N: byte := 0x6e
  const LOWER_T: byte := 0x74
  const LOWER_U: byte := 0x75
  const OPEN_BRACE: byte := 0x7b
  const CLOSE_BRACE: byte := 0x7d
  const DELETE: byte := 0x7f

  const NULL_TAIL: Bytes := [0x75, 0x6c, 0x6c]
  const FALSE_TAIL: Bytes := [0x61, 0x6c, 0x73, 0x65]
  const TRUE_TAIL: Bytes := [0x72, 0x75, 0x65]

  predicate IsDigit(c: int) {
    ZERO <= c <= 0x39
  }

  /** An object is the ordered map of the original, listed in key order. */
  datatype Value =
    | Null
    | Bool(b: bool)
    | Num(n: real)
    | Str(s: Bytes)
    | Arr(items: seq<Value>)
    | Obj(fields: seq<Field>)

  datatype Field = Field(key: Bytes, value: Value)

  /** Order of keys: by unsigned bytes, a proper prefix first. */
  predicate Less(a: Bytes, b: Bytes) {
    b != [] && (a == [] || a[0] < b[0] || (a[0] == b[0] && Less(a[1..], b[1..])))
  }

  lemma {:induction false} LessIsTransitive(a: Bytes, b: Bytes, c: Bytes)
    requires Less(a, b) && Less(b, c)
    ensures Less(a, c)
  {
    if a != [] && a[0] == b[0] == c[0] {
      LessIsTransitive(a[1..], b[1..], c[1..]);
    }
  }

  lemma {:induction false} LessIsTotal(a: Bytes, b: Bytes)
    ensures a == b || Less(a, b) || Less(b, a)
    ensures !(Less(a, b) && Less(b, a)) && !Less(a, a)
  {
    if a != [] {
      LessIsTotal(a[1..], a[1..]);
      if b != [] {
        LessIsTotal(a[1..], b[1..]);
        if a[0] == b[0] && a[1..] == b[1..] {
          assert a == [a[0]] + a[1..] == b;
        }
      }
    }
  }

  predicate Sorted(fields: seq<Field>) {
    forall i, j :: 0 <= i < j < |fields| ==> Less(fields[i].key, fields[j].key)
  }

  /** Every object in the tree lists its keys in strictly increasing order. */
  predicate WellFormed(v: Value) {
    match v
    case Arr(items) => forall i :: 0 <= i < |items| ==> WellFormed(items[i])
    case Obj(fields) => Sorted(fields) && forall i :: 0 <= i < |fields| ==> WellFormed(fields[i].value)
    case _ => true
  }

  /** `o[key] = value` on the ordered map. */
  function Put(fields: seq<Field>, key: Bytes, value: Value): seq<Field> {
    if fields == [] then [Field(key, value)]
    else if key == fields[0].key then [Field(key, value)] + fields[1..]
    else if Less(key, fields[0].key) then [Field(key, value)] + fields
    else [fields[0]] + Put(fields[1..], key, value)
  }

  /** The ordered map keeps its order; the key is present afterwards with the new value and every
      other entry is what it was. */
  lemma {:induction false} PutIsUpdate(fields: seq<Field>, key: Bytes, value: Value)
    requires Sorted(fields)
    ensures Sorted(Put(fields, key, value))
    ensures forall f :: f in Put(fields, key, value)
              <==> f == Field(key, value) || (f in fields && f.key != key)
  {
    if fields == [] {
    } else {
      var f0, rest := fields[0], fields[1..];
      assert fields == [f0] + rest;
      assert Sorted(rest);
      LessIsTotal(key, f0.key);
      forall f | f in rest ensures Less(f0.key, f.key) && f.key != f0.key {
        var i :| 0 <= i < |rest| && rest[i] == f;
        assert fields[i + 1] == f;
        LessIsTotal(f0.key, f.key);
      }
      if key == f0.key {
      } else if Less(key, f0.key) {
        forall f | f in rest ensures Less(key, f.key) && f.key != key {
          LessIsTransitive(key, f0.key, f.key);
          LessIsTotal(key, f.key);
        }
      } else {
        PutIsUpdate(rest, key, value);
        StaysInFront(f0, rest, key, value);
      }
    }
  }

  lemma StaysInFront(f0: Field, rest: seq<Field>, key: Bytes, value: Value)
    requires Less(f0.key, key) && Sorted(Put(rest, key, value))
    requires forall f :: f in rest ==> Less(f0.key, f.key)
    requires forall f :: f in Put(rest, key, value) ==> f == Field(key, value) || f in rest
    ensures Sorted([f0] + Put(rest, key, value))
  {
    var p := Put(rest, key, value);
    forall j | 0 <= j < |p| ensures Less(f0.key, p[j].key) {
      assert p[j] in p;
    }
  }

  /** A key beyond all others goes to the end. */
  lemma {:induction false} PutAppends(fields: seq<Field>, key: Bytes, value: Value)
    requires forall i :: 0 <= i < |fields| ==> Less(fields[i].key, key)
    ensures Put(fields, key, value) == fields + [Field(key, value)]
  {
    if fields != [] {
      LessIsTotal(fields[0].key, key);
      PutAppends(fields[1..], key, value);
    }
  }
}
