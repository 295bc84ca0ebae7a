/** Intervals that are none, and the errors they are. */
module IntervalTexts {
  import opened Patterns
  import opened PatternErrors
  import opened Readings
  import opened Numerals
  import opened Lexer
  import opened PatternTexts
  import opened OperatorTexts

  // ----- No pattern -----

  /** Above 0x7fff c{n} is no pattern under any syntax. */
  lemma ExactNone(c: char, n: nat, b: LexBits, x: Syntax)
    requires Ordinary(c) && b.intervals && n > 0x7fff
    ensures NoReading([c] + OpenBrace(b) + Numeral(n) + CloseBrace(b), b, x)
  {
    var f := CharTokens(Numeral(n));
    var op := [TOpenDup] + f + [TCloseDup];
    var tokens := [TChar(c as int)] + op;
    NumeralOrdinary(n);
    IntervalLex(c, Numeral(n), b);
    hide Lex, FieldValue, Numeral;
    NumeralValue(n);
    assert tokens[2..|f| + 2] == f;
    NumberHasNoEnd(tokens, 1, |f| + 2);
    Rejected(tokens, 1, |f| + 2, |f| + 2);
    NotLiteral(tokens, x, 1, |f| + 2, |f| + 2);
    NoRepetition(c, op, tokens, x);
  }

  lemma BadRange(t: PatternToken, f: seq<PatternToken>, g: seq<PatternToken>, tokens: seq<PatternToken>, x: Syntax)
    requires tokens == [t] + ([TOpenDup] + f + [TChar(',' as int)] + g + [TCloseDup])
    requires FieldValue(f) >= -1 && FieldValue(g) >= -1 && !GoodBounds(FieldValue(f), FieldValue(g))
    ensures NoIntervalAt(tokens, 1) && !BraceStays(tokens, x, 1)
  {
    hide FieldValue, GoodBounds;
    var p, q := |f| + 2, |f| + 3 + |g|;
    RangeSlices(t, f, g, tokens);
    NumberHasNoEnd(tokens, 1, p);
    NumberHasNoEnd(tokens, p, q);
    hide FieldEnds, NoIntervalAt, BraceStays;
    Rejected(tokens, 1, p, q);
    NotLiteral(tokens, x, 1, p, q);
  }

  /** Neither is c{v,w} with bounds out of order or above 0x7fff. */
  lemma RangeNone(c: char, v: int, w: int, b: LexBits, x: Syntax)
    requires Ordinary(c) && b.intervals && v >= -1 && w >= -1 && (v > 0x7fff || w > 0x7fff || (w != -1 && v > w))
    ensures NoReading([c] + OpenBrace(b) + (Bound(v) + "," + Bound(w)) + CloseBrace(b), b, x)
  {
    hide Lex, FieldValue, Bound, CharTokens, Ordinary, OpenBrace, CloseBrace, NoIntervalAt, BraceStays;
    var f, g := CharTokens(Bound(v)), CharTokens(Bound(w));
    var op := [TOpenDup] + f + [TChar(',' as int)] + g + [TCloseDup];
    var tokens := [TChar(c as int)] + op;
    InnerRange(v, w);
    IntervalLex(c, Bound(v) + "," + Bound(w), b);
    BoundValue(v);
    BoundValue(w);
    BadRange(TChar(c as int), f, g, tokens, x);
    NoRepetition(c, op, tokens, x);
  }

  // ----- Which error it is -----

  /** Tokens after which an operator has nothing to apply to, and those that end an operator. */
  predicate EndsOrOpens(t: PatternToken) { t.TAlt? || t.TOpen? || IsDupToken(t) || t.TCloseDup? }

  lemma DupEnds(s: seq<PatternToken>, lo: nat, hi: int)
    requires SpellsDup(s, lo, hi)
    ensures s != [] && EndsOrOpens(s[|s| - 1])
  {
  }

  /** A misplaced operator comes first, or after one of these. */
  lemma {:induction false} RepeatPlace(tokens: seq<PatternToken>, x: Syntax, z: Prefix, s: Place, first: bool, nested: bool)
    requires Leads(tokens, x, z, s, first, nested) && (Innermost(z).Operator? || (Innermost(z) == Upto(Blank) && AtFirst(z, first)))
    ensures var p := EndOf(z, s).pos;
      (first && p == s.pos) || (s.pos < p <= |tokens| && EndsOrOpens(tokens[p - 1]))
    decreases z
  {
    hide TopFits, SpellsDup, Fits;
    match z
    case Upto(a) =>
    case Operator(a, lo, hi, spelling) => OperatorPlace(tokens, x, Repeat(a, lo, hi, spelling), s, first, nested);
    case Beside(l, rest) => RepeatPlace(tokens, x, rest, NextBranch(l, s), true, nested);
    case Behind(l, rest) => RepeatPlace(tokens, x, rest, After(l, s), false, nested);
    case Past(t, rest) => RepeatPlace(tokens, x, rest, Passing(s), true, false);
    case Inside(rest) => RepeatPlace(tokens, x, rest, InGroupAt(s), true, true);
  }

  lemma OperatorPlace(tokens: seq<PatternToken>, x: Syntax, a: Ast, s: Place, first: bool, nested: bool)
    requires a.Repeat? && Fits(tokens, x, a, s, first, nested)
    ensures var p := After(a, s).pos; s.pos < p <= |tokens| && EndsOrOpens(tokens[p - 1])
  {
    assert TopFits(tokens, x, a, s.pos, first, nested);
    TopRepeat(tokens, x, a, s.pos, first, nested);
    DupEnds(a.spelling, a.lo, a.hi);
    hide TopFits, SpellsDup, Reads, RefsInScope, Numbered;
    var q := s.pos + Width(a.body);
    assert tokens[q..q + |a.spelling|][|a.spelling| - 1] == tokens[q + |a.spelling| - 1];
  }

  /** A character and then a brace with nothing but characters in it. */
  ghost predicate BracedChars(tokens: seq<PatternToken>) {
    && |tokens| > 1 && tokens[0].TChar? && tokens[1] == TOpenDup
    && forall k | 1 < k < |tokens| :: tokens[k].TChar? || tokens[k].TCloseDup?
  }

  /** If it stops the parser, the interval is to blame. */
  lemma IntervalBlamed(tokens: seq<PatternToken>, x: Syntax, e: Error, z: Prefix)
    requires BracedChars(tokens) && Stops(tokens, x, e, z, Beginning, true, false)
    ensures IsIntervalError(e) && BadIntervalAt(tokens, x, 1, e)
  {
    hide Stops, BadIntervalAt, BracedChars;
    ErrorNeeds(tokens, x, e, z);
    NoOthers(tokens);
    BlamedToken(tokens, x, e, z);
    OnlyBrace(tokens, EndOf(z, Beginning).pos);
    hide EndOf;
  }

  lemma NoOthers(tokens: seq<PatternToken>)
    requires BracedChars(tokens)
    ensures TClose !in tokens && TOpen !in tokens && forall k :: TBackRef(k) !in tokens
  {
  }

  lemma OnlyBrace(tokens: seq<PatternToken>, p: nat)
    requires BracedChars(tokens)
    ensures var t := TokenAt(tokens, p); t.TStar? || t.TPlus? || t.TQuestion? || t.TOpenDup? ==> t.TOpenDup? && p == 1
    ensures !EndsOrOpens(tokens[0])
  {
  }

  lemma BlamedToken(tokens: seq<PatternToken>, x: Syntax, e: Error, z: Prefix)
    requires Stops(tokens, x, e, z, Beginning, true, false)
    ensures var p := EndOf(z, Beginning).pos; var t := TokenAt(tokens, p);
      && (IsIntervalError(e) ==> t.TOpenDup? && BadIntervalAt(tokens, x, p, e))
      && (e.BadRepeat? ==> IsDupToken(t) && (p == 0 || (p <= |tokens| && EndsOrOpens(tokens[p - 1]))))
  {
    hide Leads, EndOf, BadIntervalAt, Innermost, Loose, AtFirst, InGroup, EndsOrOpens;
    if e.BadRepeat? { RepeatPlace(tokens, x, z, Beginning, true, false); }
  }

  /** Above 0x7fff the error of c{n} is ESIZE, under any syntax. */
  lemma ExactCode(c: char, n: nat, b: LexBits, x: Syntax, e: Error, z: Prefix)
    requires Ordinary(c) && b.intervals && n > 0x7fff
    requires var l := Lex([c] + OpenBrace(b) + Numeral(n) + CloseBrace(b), 0, b);
      l.Tokens? && Stops(l.tokens, x, e, z, Beginning, true, false)
    ensures e == Size_
  {
    hide Stops, FieldValue, Numeral, Lex, OpenBrace, CloseBrace, Ordinary, RunsOut, TooLarge;
    var f := CharTokens(Numeral(n));
    var tokens := [TChar(c as int)] + ([TOpenDup] + f + [TCloseDup]);
    NumeralOrdinary(n);
    IntervalLex(c, Numeral(n), b);
    NumeralValue(n);
    assert BracedChars(tokens);
    IntervalBlamed(tokens, x, e, z);
    assert tokens[2..|f| + 2] == f && tokens[|f| + 2] == TCloseDup;
    NumberHasNoEnd(tokens, 1, |f| + 2);
    FieldsDecide(tokens, 1, |f| + 2, |f| + 2);
  }

  /** That of c{v,w} is BADBR if the bounds are out of order, and ESIZE if one is too large; all
      numbers above 0x7fff count as the same one. */
  lemma RangeCode(c: char, v: int, w: int, b: LexBits, x: Syntax, e: Error, z: Prefix)
    requires Ordinary(c) && b.intervals && v >= -1 && w >= -1 && (v > 0x7fff || w > 0x7fff || (w != -1 && v > w))
    requires var l := Lex([c] + OpenBrace(b) + (Bound(v) + "," + Bound(w)) + CloseBrace(b), 0, b);
      l.Tokens? && Stops(l.tokens, x, e, z, Beginning, true, false)
    ensures e == if w != -1 && v > w && w <= 0x7fff then BadBrace else Size_
  {
    hide Stops, FieldValue, Bound, CharTokens, Lex, OpenBrace, CloseBrace, Ordinary, RunsOut, TooLarge;
    var f, g := CharTokens(Bound(v)), CharTokens(Bound(w));
    var tokens := [TChar(c as int)] + ([TOpenDup] + f + [TChar(',' as int)] + g + [TCloseDup]);
    var p, q := |f| + 2, |f| + 3 + |g|;
    InnerRange(v, w);
    IntervalLex(c, Bound(v) + "," + Bound(w), b);
    BoundValue(v);
    BoundValue(w);
    assert BracedChars(tokens);
    IntervalBlamed(tokens, x, e, z);
    RangeSlices(TChar(c as int), f, g, tokens);
    NumberHasNoEnd(tokens, 1, p);
    NumberHasNoEnd(tokens, p, q);
    FieldsDecide(tokens, 1, p, q);
  }

  lemma RangeSlices(t: PatternToken, f: seq<PatternToken>, g: seq<PatternToken>, tokens: seq<PatternToken>)
    requires tokens == [t] + ([TOpenDup] + f + [TChar(',' as int)] + g + [TCloseDup])
    ensures var p, q := |f| + 2, |f| + 3 + |g|;
      |tokens| == q + 1 && tokens[2..p] == f && tokens[p + 1..q] == g && tokens[p] == TChar(',' as int) && tokens[q] == TCloseDup
  {
  }

  /** Where the pattern ends within the braces it is EBRACE. */
  lemma OpenCode(t: PatternToken, u: PatternToken, x: Syntax, e: Error, z: Prefix)
    requires t.TChar? && u.TChar? && u != TChar(',' as int) && Stops([t, TOpenDup, u], x, e, z, Beginning, true, false)
    ensures e == Brace
  {
    hide Stops, FieldValue, RunsOut, TooLarge;
    var tokens := [t, TOpenDup, u];
    assert BracedChars(tokens) && FieldEnds(tokens, 1, 3);
    IntervalBlamed(tokens, x, e, z);
    FieldsDecide(tokens, 1, 3, 3);
  }
}
