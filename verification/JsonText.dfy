/** Where a piece of text stands in a larger text, and how white space is skipped. */
module JsonText {
  import opened Basics
  import opened JsonValue
  import opened JsonGrammar

  /** The text `s` stands at position `p` of `t`. */
  predicate At(t: Bytes, p: nat, s: Bytes) {
    p + |s| <= |t| && t[p .. p + |s|] == s
  }

  lemma AtSplit(t: Bytes, p: nat, a: Bytes, b: Bytes)
    requires At(t, p, a + b)
    ensures At(t, p, a) && At(t, p + |a|, b)
  {
    assert t[p .. p + |a|] == (a + b)[..|a|];
    assert t[p + |a| .. p + |a| + |b|] == (a + b)[|a|..];
  }

  lemma AtJoin(t: Bytes, p: nat, a: Bytes, b: Bytes)
    requires At(t, p, a) && At(t, p + |a|, b)
    ensures At(t, p, a + b)
  {
    var n := p + |a|;
    assert t[p .. n + |b|] == t[p..n] + t[n .. n + |b|];
  }

  lemma AtSplitOfThree(t: Bytes, p: nat, a: Bytes, b: Bytes, ab: Bytes, c: Bytes)
    requires ab == a + b && At(t, p, ab + c)
    ensures At(t, p, a) && At(t, p + |a|, b + c)
  {
    Associate(a, b, c, b + c);
    AtSplit(t, p, a, b + c);
  }

  lemma AtJoinOfThree(t: Bytes, p: nat, a: Bytes, b: Bytes, ab: Bytes, c: Bytes)
    requires ab == a + b && At(t, p, a) && At(t, p + |a|, b + c)
    ensures At(t, p, ab + c)
  {
    Associate(a, b, c, b + c);
    AtJoin(t, p, a, b + c);
  }

  lemma Associate(a: Bytes, b: Bytes, c: Bytes, bc: Bytes)
    requires bc == b + c
    ensures (a + b) + c == a + bc
  {
  }

  lemma AtByte(t: Bytes, p: nat, s: Bytes, i: nat)
    requires At(t, p, s) && i < |s|
    ensures t[p + i] == s[i]
  {
    assert t[p .. p + |s|][i] == t[p + i];
  }

  lemma AtFirst(t: Bytes, p: nat, s: Bytes)
    requires At(t, p, s) && s != []
    ensures CharAt(t, p) == s[0]
  {
    AtByte(t, p, s, 0);
  }

  /** One character, and what follows it. */
  lemma AtChar(t: Bytes, p: nat, c: byte, s: Bytes)
    requires At(t, p, [c] + s)
    ensures p < |t| && t[p] == c && At(t, p + 1, s)
  {
    AtSplit(t, p, [c], s);
    AtFirst(t, p, [c]);
  }

  lemma CharThere(t: Bytes, p: nat, c: byte, s: Bytes)
    requires p < |t| && t[p] == c && At(t, p + 1, s)
    ensures At(t, p, [c] + s)
  {
    assert t[p .. p + 1] == [c];
    AtJoin(t, p, [c], s);
  }

  // ---------------------------------------------------------------- white space

  /** The four octets of section 2 of RFC 8259: blank, tab, line feed, carriage return. */
  predicate SpaceOctet(c: int) {
    c == 0x20 || c == 0x09 || c == 0x0a || c == 0x0d
  }

  predicate AllSpace(ws: Bytes) {
    forall i :: 0 <= i < |ws| ==> SpaceOctet(ws[i])
  }

  /** Skipping passes over any run of them, and over nothing else. */
  lemma {:induction false} SpaceIsSkipped(t: Bytes, p: nat, ws: Bytes)
    requires At(t, p, ws) && AllSpace(ws) && !SpaceOctet(CharAt(t, p + |ws|))
    ensures SkipSpace(t, p) == p + |ws|
    decreases |ws|
  {
    if ws != [] {
      AtByte(t, p, ws, 0);
      assert At(t, p + 1, ws[1..]) by {
        assert ws == [ws[0]] + ws[1..];
        AtSplit(t, p, [ws[0]], ws[1..]);
      }
      SpaceIsSkipped(t, p + 1, ws[1..]);
    }
  }

  lemma {:induction false} SkippedIsSpace(t: Bytes, p: nat)
    requires p <= |t|
    ensures AllSpace(t[p .. SkipSpace(t, p)]) && !SpaceOctet(CharAt(t, SkipSpace(t, p)))
    ensures SkipSpace(t, SkipSpace(t, p)) == SkipSpace(t, p)
    decreases |t| - p
  {
    if IsSpace(CharAt(t, p)) {
      var q := SkipSpace(t, p);
      SkippedIsSpace(t, p + 1);
      assert t[p..q] == [t[p]] + t[p + 1 .. q];
    }
  }
}
