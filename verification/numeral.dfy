/** The numbers in the intervals of a pattern. */
module Numerals {
  import opened Patterns

  function DigitChar(d: nat): char
    requires d < 10
  {
    ('0' as int + d) as char
  }

  /** The decimal numeral. */
  function Numeral(n: nat): (s: string)
    ensures |s| > 0
  {
    if n < 10 then [DigitChar(n)] else Numeral(n / 10) + [DigitChar(n % 10)]
  }

  /** The characters of a text, as tokens. */
  function CharTokens(s: string): (t: seq<PatternToken>)
    ensures |t| == |s| && forall k | 0 <= k < |s| :: t[k] == TChar(s[k] as int)
  {
    seq(|s|, k requires 0 <= k < |s| => TChar(s[k] as int))
  }

  lemma CharTokensAppend(s: string, c: char)
    ensures CharTokens(s + [c]) == CharTokens(s) + [TChar(c as int)]
  {
  }

  /** A numeral is read as its number, and as 0x8000 where that is above 0x7fff. */
  lemma {:induction false} NumeralValue(n: nat)
    ensures FieldValue(CharTokens(Numeral(n))) == if n <= 0x7fff then n else 0x8000
    decreases n
  {
    if n < 10 {
      var d := TChar(DigitChar(n) as int);
      assert CharTokens(Numeral(n)) == [] + [d];
      FieldValueNext([], d);
    } else {
      NumeralValue(n / 10);
      CharTokensAppend(Numeral(n / 10), DigitChar(n % 10));
      FieldValueNext(CharTokens(Numeral(n / 10)), TChar(DigitChar(n % 10) as int));
    }
  }

  /** A field with anything but the characters 0 to 9 is no number; an empty one is left out. */
  lemma FieldNumbers(s: seq<PatternToken>)
    ensures FieldValue(s) == -2 <==> exists k :: 0 <= k < |s| && (s[k].TChar? ==> s[k].c < '0' as int || '9' as int < s[k].c)
    ensures FieldValue(s) == -1 <==> s == []
  {
    forall k | 0 <= k < |s| ensures s[k] in s {}
  }

  /** {n} is an interval exactly for numbers up to 0x7fff, and means exactly n times. */
  lemma ExactReads(n: nat, lo: nat, hi: int)
    ensures SpellsDup([TOpenDup] + CharTokens(Numeral(n)) + [TCloseDup], lo, hi) <==> n <= 0x7fff && lo == hi == n
  {
    hide FieldValue, SpellsRange, FieldEnds;
    var f := CharTokens(Numeral(n));
    var s := [TOpenDup] + f + [TCloseDup];
    NumeralValue(n);
    if n <= 0x7fff && lo == hi == n { assert SpellsExact(s, f, lo, hi); }
    if SpellsDup(s, lo, hi) {
      assert s[0..|s|] == s && s[1..|f| + 1] == f;
      var e1, e2 := IntervalFields(s, 0, |s|, lo, hi);
      NumberHasNoEnd(s, 0, |f| + 1);
      OneFieldEnd(s, 0, e1, |f| + 1);
    }
  }

  /** A number, or nothing for -1. */
  function Bound(v: int): string
    requires v >= -1
  {
    if v == -1 then "" else Numeral(v)
  }

  lemma BoundValue(v: int)
    requires v >= -1
    ensures FieldValue(CharTokens(Bound(v))) == if v <= 0x7fff then v else 0x8000
  {
    if v >= 0 { NumeralValue(v); }
  }

  /** {v,w}, where either bound may be missing: an interval exactly if the bounds are in order
      and at most 0x7fff. */
  lemma RangeReads(v: int, w: int, lo: nat, hi: int)
    requires v >= -1 && w >= -1
    ensures
      SpellsDup([TOpenDup] + CharTokens(Bound(v)) + [TChar(',' as int)] + CharTokens(Bound(w)) + [TCloseDup], lo, hi) <==>
        lo == (if v == -1 then 0 else v) && hi == w && if w == -1 then lo <= 0x7fff else lo <= w <= 0x7fff
  {
    hide FieldValue, SpellsExact, FieldEnds;
    var f, g := CharTokens(Bound(v)), CharTokens(Bound(w));
    var s := [TOpenDup] + f + [TChar(',' as int)] + g + [TCloseDup];
    var k := |f| + 1;
    BoundValue(v);
    BoundValue(w);
    if lo == (if v == -1 then 0 else v) && hi == w && if w == -1 then lo <= 0x7fff else lo <= w <= 0x7fff {
      assert SpellsRange(s, f, g, lo, hi);
    }
    if SpellsDup(s, lo, hi) {
      assert s[0..|s|] == s && s[1..k] == f && s[k + 1..k + 1 + |g|] == g && s[k] == TChar(',' as int);
      var e1, e2 := IntervalFields(s, 0, |s|, lo, hi);
      NumberHasNoEnd(s, 0, k);
      OneFieldEnd(s, 0, e1, k);
      NumberHasNoEnd(s, k, k + 1 + |g|);
      OneFieldEnd(s, k, e2, k + 1 + |g|);
    }
  }

  /** The other operators. */
  lemma OperatorReads(lo: nat, hi: int)
    ensures SpellsDup([TStar], lo, hi) <==> lo == 0 && hi == -1
    ensures SpellsDup([TPlus], lo, hi) <==> lo == 1 && hi == -1
    ensures SpellsDup([TQuestion], lo, hi) <==> lo == 0 && hi == 1
  {
  }
}
