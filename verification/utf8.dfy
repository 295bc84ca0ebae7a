/** One UTF-8 character: the decision tree of the decoder, and the encoder. */
module Utf8 {

  /** How the decision tree ends: `wc` and the number of bytes (0 for a null character), or
      the need for more bytes, or an ill-formed sequence. */
  datatype Verdict = Complete(wc: bv32, res: nat) | Incomplete | Invalid

  predicate IsTail(b: bv8) { (b ^ 0x80) < 0x40 }

  function Low(b: bv8): bv32 { (b ^ 0x80) as bv32 }

  predicate SecondOfThree(c: bv8, c2: bv8) { IsTail(c2) && (c >= 0xe1 || c2 >= 0xa0) && (c != 0xed || c2 < 0xa0) }

  predicate SecondOfFour(c: bv8, c2: bv8) { IsTail(c2) && (c >= 0xf1 || c2 >= 0x90) && (c < 0xf4 || c2 < 0x90) }

  function FromTwo(c: bv8, c2: bv8): bv32 { ((c & 0x1f) as bv32 << 6) | Low(c2) }

  function FromThree(c: bv8, c2: bv8, c3: bv8): bv32 { ((c & 0x0f) as bv32 << 12) | (Low(c2) << 6) | Low(c3) }

  function FromFour(c: bv8, c2: bv8, c3: bv8, c4: bv8): bv32 {
    ((c & 0x07) as bv32 << 18) | (Low(c2) << 12) | (Low(c3) << 6) | Low(c4)
  }

  /** mbrtowc-impl-utf8.h, on the bytes p[0..m). Every code point fits in char32_t. */
  function Decide(p: seq<bv8>): Verdict
    requires |p| > 0
  {
    var c, m := p[0], |p|;
    if c < 0x80 then Complete(c as bv32, if c == 0 then 0 else 1)
    else if c < 0xc2 then Invalid
    else if c < 0xe0 then
      if m == 1 then Incomplete
      else if IsTail(p[1]) then Complete(FromTwo(c, p[1]), 2)
      else Invalid
    else if c < 0xf0 then
      if m == 1 then Incomplete
      else if SecondOfThree(c, p[1]) then
        if m == 2 then Incomplete
        else if IsTail(p[2]) then Complete(FromThree(c, p[1], p[2]), 3)
        else Invalid
      else Invalid
    else if c <= 0xf4 then
      if m == 1 then Incomplete
      else if SecondOfFour(c, p[1]) then
        if m == 2 then Incomplete
        else if IsTail(p[2]) then
          if m == 3 then Incomplete
          else if IsTail(p[3]) then
            Complete(FromFour(c, p[1], p[2], p[3]), 4)
          else Invalid
        else Invalid
      else Invalid
    else Invalid
  }

  /** How many bytes a character of `res` takes. */
  function Length(res: nat): nat { if res == 0 then 1 else res }

  // ----- RFC 3629 -----

  /** UTF8-tail of section 4 of RFC 3629. */
  predicate TailByte(b: bv8) { 0x80 <= b <= 0xbf }

  /** UTF8-char of section 4 of RFC 3629. */
  predicate Utf8Char(s: seq<bv8>) {
    || (|s| == 1 && s[0] <= 0x7f)
    || (|s| == 2 && 0xc2 <= s[0] <= 0xdf && TailByte(s[1]))
    || (|s| == 3 && Utf8Three(s[0], s[1]) && TailByte(s[2]))
    || (|s| == 4 && Utf8Four(s[0], s[1]) && TailByte(s[2]) && TailByte(s[3]))
  }

  predicate Utf8Three(a: bv8, b: bv8) {
    || (a == 0xe0 && 0xa0 <= b <= 0xbf)
    || (0xe1 <= a <= 0xec && TailByte(b))
    || (a == 0xed && 0x80 <= b <= 0x9f)
    || (0xee <= a <= 0xef && TailByte(b))
  }

  predicate Utf8Four(a: bv8, b: bv8) {
    || (a == 0xf0 && 0x90 <= b <= 0xbf)
    || (0xf1 <= a <= 0xf3 && TailByte(b))
    || (a == 0xf4 && 0x80 <= b <= 0x8f)
  }

  /** The character number a UTF8-char stands for. */
  function Value(s: seq<bv8>): bv32
    requires 1 <= |s| <= 4
  {
    if |s| == 1 then s[0] as bv32
    else if |s| == 2 then ValueTwo(s[0], s[1])
    else if |s| == 3 then ValueThree(s[0], s[1], s[2])
    else ValueFour(s[0], s[1], s[2], s[3])
  }

  function Digit(b: bv8): bv32 { b as bv32 - 0x80 }

  function ValueTwo(a: bv8, b: bv8): bv32 { (a as bv32 - 0xc0) * 0x40 + Digit(b) }

  function ValueThree(a: bv8, b: bv8, c: bv8): bv32 { (a as bv32 - 0xe0) * 0x1000 + Digit(b) * 0x40 + Digit(c) }

  function ValueFour(a: bv8, b: bv8, c: bv8, d: bv8): bv32 {
    (a as bv32 - 0xf0) * 0x4_0000 + Digit(b) * 0x1000 + Digit(c) * 0x40 + Digit(d)
  }

  /** Unicode scalar values. */
  predicate Scalar(wc: bv32) { wc < 0xd800 || 0xe000 <= wc < 0x11_0000 }

  // The bit operations of the tree are the sums of the definition.

  lemma TailBits(b: bv8)
    ensures IsTail(b) <==> TailByte(b)
  {
  }

  lemma TwoBits(a: bv8, b: bv8)
    requires 0xc2 <= a <= 0xdf && TailByte(b)
    ensures FromTwo(a, b) == ValueTwo(a, b) && 0x80 <= FromTwo(a, b) < 0x800
  {
  }

  lemma ThreeBits(a: bv8, b: bv8, c: bv8)
    requires Utf8Three(a, b) && TailByte(c)
    ensures FromThree(a, b, c) == ValueThree(a, b, c)
    ensures Scalar(FromThree(a, b, c)) && 0x800 <= FromThree(a, b, c) < 0x1_0000
  {
  }

  lemma FourBits(a: bv8, b: bv8, c: bv8, d: bv8)
    requires Utf8Four(a, b) && TailByte(c) && TailByte(d)
    ensures FromFour(a, b, c, d) == ValueFour(a, b, c, d) && 0x1_0000 <= FromFour(a, b, c, d) < 0x11_0000
  {
  }

  /** The tests on the first two bytes. */
  lemma SecondByte(a: bv8, b: bv8)
    ensures 0xe0 <= a < 0xf0 ==> (SecondOfThree(a, b) <==> Utf8Three(a, b))
    ensures 0xf0 <= a <= 0xf4 ==> (SecondOfFour(a, b) <==> Utf8Four(a, b))
    ensures Utf8Three(a, b) ==> 0xe0 <= a < 0xf0
    ensures Utf8Four(a, b) ==> 0xf0 <= a <= 0xf4
  {
  }

  /** What the tests say about the bytes that are there. */
  lemma ByteTests(p: seq<bv8>)
    ensures |p| > 1 ==> (IsTail(p[1]) <==> TailByte(p[1]))
    ensures |p| > 1 && 0xe0 <= p[0] < 0xf0 ==> (SecondOfThree(p[0], p[1]) <==> Utf8Three(p[0], p[1]))
    ensures |p| > 1 && 0xf0 <= p[0] <= 0xf4 ==> (SecondOfFour(p[0], p[1]) <==> Utf8Four(p[0], p[1]))
    ensures |p| > 1 && Utf8Three(p[0], p[1]) ==> 0xe0 <= p[0] < 0xf0
    ensures |p| > 1 && Utf8Four(p[0], p[1]) ==> 0xf0 <= p[0] <= 0xf4
    ensures |p| > 2 ==> (IsTail(p[2]) <==> TailByte(p[2]))
    ensures |p| > 3 ==> (IsTail(p[3]) <==> TailByte(p[3]))
  {
    hide *;
    if |p| > 1 { TailBits(p[1]); SecondByte(p[0], p[1]); }
    if |p| > 2 { TailBits(p[2]); }
    if |p| > 3 { TailBits(p[3]); }
  }

  /** The tree accepts exactly the characters of RFC 3629, at once and with their value. */
  lemma DecideAccepts(p: seq<bv8>)
    requires |p| > 0
    ensures Decide(p).Complete? ==>
      var k := Length(Decide(p).res);
      k <= |p| && Utf8Char(p[..k]) && Decide(p).wc == Value(p[..k]) && Scalar(Decide(p).wc) && (Decide(p).res == 0 <==> Decide(p).wc == 0)
  {
    hide IsTail, TailByte, SecondOfThree, SecondOfFour, Utf8Three, Utf8Four, FromTwo, FromThree, FromFour, ValueTwo, ValueThree, ValueFour;
    ByteTests(p);
    if Decide(p).Complete? {
      var k := Decide(p).res;
      if k == 2 { TwoBits(p[0], p[1]); }
      if k == 3 { ThreeBits(p[0], p[1], p[2]); }
      if k == 4 { FourBits(p[0], p[1], p[2], p[3]); }
    }
  }

  lemma DecideFinds(c: seq<bv8>, rest: seq<bv8>)
    requires Utf8Char(c)
    ensures Decide(c + rest) == Complete(Value(c), if Value(c) == 0 then 0 else |c|) && Scalar(Value(c))
  {
    hide IsTail, TailByte, SecondOfThree, SecondOfFour, Utf8Three, Utf8Four, FromTwo, FromThree, FromFour, ValueTwo, ValueThree, ValueFour;
    ByteTests(c);
    if |c| == 2 { TwoBits(c[0], c[1]); }
    if |c| == 3 { ThreeBits(c[0], c[1], c[2]); }
    if |c| == 4 { FourBits(c[0], c[1], c[2], c[3]); }
  }

  /** More bytes are asked for exactly when some would complete a character. */
  lemma DecideWaits(p: seq<bv8>)
    requires |p| > 0
    ensures Decide(p).Incomplete? <==> exists q :: q != [] && Utf8Char(p + q)
  {
    if Decide(p).Incomplete? {
      var q := Completion(p);
      assert q != [] && Utf8Char(p + q);
    }
    forall q | q != [] && Utf8Char(p + q) ensures Decide(p).Incomplete? {
      hide IsTail, TailByte, SecondOfThree, SecondOfFour, Utf8Three, Utf8Four;
      ByteTests(p + q);
      assert p[0] == (p + q)[0] && (|p| > 1 ==> p[1] == (p + q)[1]) && (|p| > 2 ==> p[2] == (p + q)[2]);
    }
  }

  lemma Completion(p: seq<bv8>) returns (q: seq<bv8>)
    requires |p| > 0 && Decide(p).Incomplete?
    ensures q != [] && Utf8Char(p + q)
  {
    var second: bv8 := if p[0] == 0xe0 then 0xa0 else if p[0] == 0xf0 then 0x90 else 0x80;
    var rest := if p[0] < 0xe0 then [second] else if p[0] < 0xf0 then [second, 0x80] else [second, 0x80, 0x80];
    q := rest[|p| - 1..];
    if |p| > 1 { TailBits(p[1]); SecondByte(p[0], p[1]); }
    if |p| > 2 { TailBits(p[2]); }
  }

  // ----- The tree on longer input -----

  /** A verdict does not change with more bytes, unless it is that more are needed. */
  lemma DecideStays(p: seq<bv8>, q: seq<bv8>)
    requires |p| > 0 && !Decide(p).Incomplete?
    ensures Decide(p + q) == Decide(p)
  {
    hide IsTail, SecondOfThree, SecondOfFour, FromTwo, FromThree, FromFour;
    var r := p + q;
    assert r[0] == p[0] && (|p| > 1 ==> r[1] == p[1]) && (|p| > 2 ==> r[2] == p[2]) && (|p| > 3 ==> r[3] == p[3]);
  }

  /** Bytes beyond the fourth are not looked at. */
  lemma DecideFour(p: seq<bv8>)
    requires |p| >= 4
    ensures Decide(p) == Decide(p[..4]) && !Decide(p).Incomplete?
  {
  }

  /** When more bytes complete the character, it takes at least one of them. */
  lemma DecideGrows(p: seq<bv8>, q: seq<bv8>)
    requires |p| > 0 && Decide(p).Incomplete? && Decide(p + q).Complete?
    ensures Decide(p + q).res > |p|
  {
  }

  // ----- The encoder -----

  /** Section 3 of RFC 3629. */
  function Encoding(wc: bv32): seq<bv8>
    requires Scalar(wc)
  {
    if wc < 0x80 then [Byte(wc)] else if wc < 0x800 then PutTwo(wc) else if wc < 0x1_0000 then PutThree(wc) else PutFour(wc)
  }

  function PutTwo(wc: bv32): seq<bv8> { [Byte(0xc0 | (wc >> 6)), Sextet(wc)] }

  function PutThree(wc: bv32): seq<bv8> { [Byte(0xe0 | (wc >> 12)), Sextet(wc >> 6), Sextet(wc)] }

  function PutFour(wc: bv32): seq<bv8> { [Byte(0xf0 | (wc >> 18)), Sextet(wc >> 12), Sextet(wc >> 6), Sextet(wc)] }

  function Byte(x: bv32): bv8 { (x & 0xff) as bv8 }

  function Sextet(x: bv32): bv8 { (0x80 | (x & 0x3f)) as bv8 }

  /** The encoding of a scalar value is the UTF8-char that stands for it. */
  lemma EncodingIsChar(wc: bv32)
    requires Scalar(wc)
    ensures Utf8Char(Encoding(wc)) && Value(Encoding(wc)) == wc
  {
    hide Byte, Sextet, TailByte, Utf8Three, Utf8Four, ValueTwo, ValueThree, ValueFour;
    OneOut(wc);
    TwoOut(wc);
    ThreeOut(wc);
    FourOut(wc);
  }

  lemma OneOut(wc: bv32)
    ensures wc < 0x80 ==> Byte(wc) <= 0x7f && Byte(wc) as bv32 == wc
  {
  }

  lemma TwoOut(wc: bv32)
    ensures 0x80 <= wc < 0x800 ==>
      var a, b := Byte(0xc0 | (wc >> 6)), Sextet(wc);
      0xc2 <= a <= 0xdf && TailByte(b) && ValueTwo(a, b) == wc
  {
  }

  lemma ThreeOut(wc: bv32)
    ensures 0x800 <= wc < 0x1_0000 && Scalar(wc) ==>
      var a, b, c := Byte(0xe0 | (wc >> 12)), Sextet(wc >> 6), Sextet(wc);
      Utf8Three(a, b) && TailByte(c) && ValueThree(a, b, c) == wc
  {
    ThreeOutValue(wc);
    ThreeOutLow(wc);
    ThreeOutHigh(wc);
  }

  lemma ThreeOutValue(wc: bv32)
    ensures 0x800 <= wc < 0x1_0000 ==>
      TailByte(Sextet(wc)) && ValueThree(Byte(0xe0 | (wc >> 12)), Sextet(wc >> 6), Sextet(wc)) == wc
  {
  }

  lemma ThreeOutLow(wc: bv32)
    ensures 0x800 <= wc < 0x1000 ==> Utf8Three(Byte(0xe0 | (wc >> 12)), Sextet(wc >> 6))
    ensures 0x1000 <= wc < 0xd000 ==> Utf8Three(Byte(0xe0 | (wc >> 12)), Sextet(wc >> 6))
  {
  }

  lemma ThreeOutHigh(wc: bv32)
    ensures 0xd000 <= wc < 0xd800 ==> Utf8Three(Byte(0xe0 | (wc >> 12)), Sextet(wc >> 6))
    ensures 0xe000 <= wc < 0x1_0000 ==> Utf8Three(Byte(0xe0 | (wc >> 12)), Sextet(wc >> 6))
  {
  }

  lemma FourOut(wc: bv32)
    ensures 0x1_0000 <= wc < 0x11_0000 ==>
      var a, b, c, d := Byte(0xf0 | (wc >> 18)), Sextet(wc >> 12), Sextet(wc >> 6), Sextet(wc);
      Utf8Four(a, b) && TailByte(c) && TailByte(d) && ValueFour(a, b, c, d) == wc
  {
  }

  /** There is only one such. */
  lemma EncodingUnique(c: seq<bv8>)
    requires Utf8Char(c)
    ensures Scalar(Value(c)) && Encoding(Value(c)) == c
  {
    hide Byte, PutTwo, PutThree, PutFour, TailByte, Utf8Three, Utf8Four, ValueTwo, ValueThree, ValueFour;
    OneBack(c[0]);
    if |c| == 2 { TwoBack(c[0], c[1]); }
    if |c| == 3 { ThreeBack(c[0], c[1], c[2]); }
    if |c| == 4 { FourBack(c[0], c[1], c[2], c[3]); }
  }

  lemma OneBack(a: bv8)
    ensures a <= 0x7f ==> (a as bv32) < 0x80 && Byte(a as bv32) == a
  {
  }

  lemma TwoBack(a: bv8, b: bv8)
    requires 0xc2 <= a <= 0xdf && TailByte(b)
    ensures var wc := ValueTwo(a, b); 0x80 <= wc < 0x800 && PutTwo(wc) == [a, b]
  {
  }

  lemma ThreeBytes(a: bv8, b: bv8, c: bv8)
    requires Utf8Three(a, b) && TailByte(c)
    ensures var wc := ValueThree(a, b, c);
      Scalar(wc) && 0x800 <= wc < 0x1_0000 && Byte(0xe0 | (wc >> 12)) == a && Sextet(wc >> 6) == b && Sextet(wc) == c
  {
  }

  lemma ThreeBack(a: bv8, b: bv8, c: bv8)
    requires Utf8Three(a, b) && TailByte(c)
    ensures var wc := ValueThree(a, b, c); Scalar(wc) && 0x800 <= wc < 0x1_0000 && PutThree(wc) == [a, b, c]
  {
    hide Byte, Sextet, ValueThree, Utf8Three, TailByte;
    ThreeBytes(a, b, c);
  }

  lemma FourBytes(a: bv8, b: bv8, c: bv8, d: bv8)
    requires Utf8Four(a, b) && TailByte(c) && TailByte(d)
    ensures var wc := ValueFour(a, b, c, d);
      && 0x1_0000 <= wc < 0x11_0000
      && Byte(0xf0 | (wc >> 18)) == a && Sextet(wc >> 12) == b && Sextet(wc >> 6) == c && Sextet(wc) == d
  {
  }

  lemma FourBack(a: bv8, b: bv8, c: bv8, d: bv8)
    requires Utf8Four(a, b) && TailByte(c) && TailByte(d)
    ensures var wc := ValueFour(a, b, c, d); 0x1_0000 <= wc < 0x11_0000 && PutFour(wc) == [a, b, c, d]
  {
    hide Byte, Sextet, ValueFour, Utf8Four, TailByte;
    FourBytes(a, b, c, d);
  }

  function Onward(wc: bv32, mark: bv32): bv32 { (wc >> 6) | mark }

  /** The fall-through of c32rtomb: the high bits of the lead byte are or-ed in one step
      before they are shifted into place. */
  lemma ShiftedMarks(wc: bv32)
    ensures 0x80 <= wc < 0x800 ==> Byte(Onward(wc, 0xc0)) == Byte(0xc0 | (wc >> 6))
    ensures 0x800 <= wc < 0x1_0000 ==>
      var x := Onward(wc, 0x800); Sextet(x) == Sextet(wc >> 6) && Byte(Onward(x, 0xc0)) == Byte(0xe0 | (wc >> 12))
    ensures 0x1_0000 <= wc < 0x11_0000 ==>
      var x := Onward(wc, 0x1_0000); var y := Onward(x, 0x800);
      Sextet(x) == Sextet(wc >> 6) && Sextet(y) == Sextet(wc >> 12) && Byte(Onward(y, 0xc0)) == Byte(0xf0 | (wc >> 18))
  {
  }

  /** What the fall-through leaves in the buffer, by the length of the encoding. */
  lemma MarkedEncoding(wc: bv32)
    requires Scalar(wc)
    ensures wc < 0x80 ==> Encoding(wc) == [Byte(wc)]
    ensures 0x80 <= wc < 0x800 ==> Encoding(wc) == [Byte(Onward(wc, 0xc0)), Sextet(wc)]
    ensures 0x800 <= wc < 0x1_0000 ==>
      var x := Onward(wc, 0x800); Encoding(wc) == [Byte(Onward(x, 0xc0)), Sextet(x), Sextet(wc)]
    ensures 0x1_0000 <= wc ==>
      var x := Onward(wc, 0x1_0000); var y := Onward(x, 0x800);
      Encoding(wc) == [Byte(Onward(y, 0xc0)), Sextet(y), Sextet(x), Sextet(wc)]
  {
    hide Byte, Sextet, Onward;
    ShiftedMarks(wc);
  }

  /** c32rtomb in a UTF-8 locale: the number of bytes written to `s`, or -1 if `wc` is not a
      Unicode scalar value. */
  method C32rtomb(s: array<bv8>, wc: bv32) returns (count: int)
    requires s.Length >= 4
    modifies s
    ensures count == -1 <==> !Scalar(wc)
    ensures Scalar(wc) ==> count == |Encoding(wc)| && s[..] == Encoding(wc) + old(s[count..])
    ensures !Scalar(wc) ==> s[..] == old(s[..])
  {
    hide Byte, Sextet, Encoding, Onward;
    if Scalar(wc) { MarkedEncoding(wc); }
    if wc < 0x80 {
      s[0] := Byte(wc);
      assert s[..] == [Byte(wc)] + old(s[1..]);
      return 1;
    }
    if wc < 0x800 {
      count := 2;
    } else if wc < 0x1_0000 {
      if wc < 0xd800 || wc >= 0xe000 { count := 3; } else { return -1; }
    } else if wc < 0x11_0000 {
      count := 4;
    } else {
      return -1;
    }
    var x := wc;
    if count == 4 {
      s[3] := Sextet(x);
      x := Onward(x, 0x1_0000);
    }
    if count >= 3 {
      s[2] := Sextet(x);
      x := Onward(x, 0x800);
    }
    s[1] := Sextet(x);
    x := Onward(x, 0xc0);
    s[0] := Byte(x);
    assert s[..] == s[..count] + old(s[count..]);
    FirstOf(s, count);
  }

  lemma FirstOf(s: array<bv8>, count: int)
    requires s.Length >= 4
    ensures count == 2 ==> s[..count] == [s[0], s[1]]
    ensures count == 3 ==> s[..count] == [s[0], s[1], s[2]]
    ensures count == 4 ==> s[..count] == [s[0], s[1], s[2], s[3]]
  {
  }
}
