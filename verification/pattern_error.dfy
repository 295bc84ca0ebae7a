/** Where the parser gives up on a pattern, and what its error codes mean. */
module PatternErrors {
  import opened Patterns
  import opened Readings

  datatype Error = BadBrace | Brace | Size_ | BadRepeat | Paren | RightParen | SubReg

  predicate IsIntervalError(e: Error) { e.BadBrace? || e.Brace? || e.Size_? }

  /** How far a pattern has been read: up to the end of a tree, up to the end of an operator
      applied to a tree, or within an alternative, behind a tree, behind an operator that was
      passed over, or inside a group. */
  datatype Prefix =
    | Upto(a: Ast)
    | Operator(a: Ast, lo: nat, hi: int, spelling: seq<PatternToken>)
    | Beside(left: Ast, rest: Prefix)
    | Behind(left: Ast, rest: Prefix)
    | Past(t: PatternToken, rest: Prefix)
    | Inside(rest: Prefix)

  /** From place `s` on, the pattern reads as `z` says. */
  ghost predicate Leads(tokens: seq<PatternToken>, x: Syntax, z: Prefix, s: Place, first: bool, nested: bool)
    decreases z
  {
    match z
    case Upto(a) => Fits(tokens, x, a, s, first, nested)
    case Operator(a, lo, hi, p) => Fits(tokens, x, Repeat(a, lo, hi, p), s, first, nested)
    case Beside(l, rest) =>
      && Fits(tokens, x, l, s, true, nested) && TokenAt(tokens, After(l, s).pos) == TAlt
      && Leads(tokens, x, rest, NextBranch(l, s), true, nested)
    case Behind(l, rest) => Fits(tokens, x, l, s, true, nested) && Leads(tokens, x, rest, After(l, s), false, nested)
    case Past(t, rest) => first && TokenAt(tokens, s.pos) == t && PassedOver(x, t) && Leads(tokens, x, rest, Passing(s), true, false)
    case Inside(rest) => TokenAt(tokens, s.pos) == TOpen && Leads(tokens, x, rest, InGroupAt(s), true, true)
  }

  ghost function EndOf(z: Prefix, s: Place): Place
    decreases z
  {
    match z
    case Upto(a) => After(a, s)
    case Operator(a, lo, hi, p) => After(Repeat(a, lo, hi, p), s)
    case Beside(l, rest) => EndOf(rest, NextBranch(l, s))
    case Behind(l, rest) => EndOf(rest, After(l, s))
    case Past(_, rest) => EndOf(rest, Passing(s))
    case Inside(rest) => EndOf(rest, InGroupAt(s))
  }

  function Innermost(z: Prefix): Prefix {
    match z
    case Beside(_, rest) => Innermost(rest)
    case Behind(_, rest) => Innermost(rest)
    case Past(_, rest) => Innermost(rest)
    case Inside(rest) => Innermost(rest)
    case _ => z
  }

  predicate InGroup(z: Prefix) {
    match z
    case Beside(_, rest) => InGroup(rest)
    case Behind(_, rest) => InGroup(rest)
    case Past(_, rest) => InGroup(rest)
    case Inside(rest) => true
    case _ => false
  }

  /** Whether a closing parenthesis there would close no group. */
  predicate Loose(z: Prefix, nested: bool) {
    match z
    case Beside(_, rest) => Loose(rest, nested)
    case Behind(_, rest) => Loose(rest, nested)
    case Past(_, rest) => Loose(rest, false)
    case Inside(rest) => Loose(rest, true)
    case _ => !nested
  }

  /** Whether there is nothing to the left there that an operator could apply to. */
  predicate AtFirst(z: Prefix, first: bool) {
    match z
    case Beside(_, rest) => AtFirst(rest, true)
    case Behind(_, rest) => AtFirst(rest, false)
    case Past(_, rest) => AtFirst(rest, true)
    case Inside(rest) => AtFirst(rest, true)
    case _ => first
  }

  /** What an error code tells about the token where the pattern stops being readable: a
      reference to a group that is not closed there, a parenthesis that closes no group, the
      end of the pattern inside a group, an operator where none is allowed, or a brace where
      no interval starts and that may not stand for itself. */
  ghost predicate Blames(tokens: seq<PatternToken>, x: Syntax, e: Error, z: Prefix, s: Place, first: bool, nested: bool) {
    var at, inner := EndOf(z, s), Innermost(z);
    var t := TokenAt(tokens, at.pos);
    match e
    case SubReg => t.TBackRef? && t.idx !in at.closed && inner == Upto(Blank)
    case RightParen => t.TClose? && !x.unmatchedRightParenOrd && inner == Upto(Blank) && Loose(z, nested)
    case Paren => t.TEnd? && InGroup(z)
    case BadRepeat =>
      if inner.Operator? then x.contextInvalidDup && IsStarOrBrace(t)
      else inner == Upto(Blank) && AtFirst(z, first) && IsDupToken(t) && (x.contextInvalidOps || (x.contextInvalidDup && t.TOpenDup?))
    case _ => inner.Upto? && !inner.a.Blank? && t.TOpenDup? && BadIntervalAt(tokens, x, at.pos, e)
  }

  /** No interval starts at the brace, and it may not stand for itself. The code is Brace exactly
      if the pattern ends first, Size_ exactly if it would be an interval but for a bound that
      is too large, and BadBrace otherwise. */
  ghost predicate BadIntervalAt(tokens: seq<PatternToken>, x: Syntax, p: nat, e: Error) {
    && NoIntervalAt(tokens, p) && !BraceStays(tokens, x, p)
    && (e.Brace? <==> RunsOut(tokens, p)) && (e.Size_? <==> TooLarge(tokens, p))
  }

  /** The first field is empty or a number, and a comma follows it at `q`. */
  ghost predicate FirstField(tokens: seq<PatternToken>, p: nat, q: nat) {
    FieldEnds(tokens, p, q) && q < |tokens| && tokens[q] == TChar(COMMA) && FieldValue(tokens[p + 1..q]) >= -1
  }

  /** The pattern ends within the first field, or within the second one after a good first one. */
  ghost predicate RunsOut(tokens: seq<PatternToken>, p: nat) {
    FieldEnds(tokens, p, |tokens|) || exists q: nat :: FirstField(tokens, p, q) && FieldEnds(tokens, q, |tokens|)
  }

  ghost predicate TooLarge(tokens: seq<PatternToken>, p: nat) {
    || (exists q: nat :: LargeField(tokens, p, q))
    || (exists q: nat, e: nat :: LargeRange(tokens, p, q, e))
  }

  /** A single number that is too large. */
  ghost predicate LargeField(tokens: seq<PatternToken>, p: nat, q: nat) {
    FieldEnds(tokens, p, q) && q < |tokens| && tokens[q].TCloseDup? && FieldValue(tokens[p + 1..q]) > RE_DUP_MAX
  }

  /** Two bounds in order, the greater one too large; it is the first if there is no second. */
  ghost predicate LargeRange(tokens: seq<PatternToken>, p: nat, q: nat, e: nat) {
    && FirstField(tokens, p, q) && FieldEnds(tokens, q, e) && e < |tokens| && tokens[e].TCloseDup?
    && var v, w := FieldValue(tokens[p + 1..q]), FieldValue(tokens[q + 1..e]);
       if w == -1 then v > RE_DUP_MAX else v <= w && w > RE_DUP_MAX
  }

  /** The fields decide the error code. */
  lemma FieldsDecide(tokens: seq<PatternToken>, p: nat, q: nat, e: nat)
    requires FieldEnds(tokens, p, q) && (FirstField(tokens, p, q) ==> FieldEnds(tokens, q, e))
    ensures RunsOut(tokens, p) <==> q == |tokens| || (FirstField(tokens, p, q) && e == |tokens|)
    ensures TooLarge(tokens, p) <==> LargeField(tokens, p, q) || LargeRange(tokens, p, q, e)
  {
    hide FieldValue;
    forall d: nat | FieldEnds(tokens, p, d) ensures d == q { OneFieldEnd(tokens, p, d, q); }
    forall d: nat | FirstField(tokens, p, q) && FieldEnds(tokens, q, d) ensures d == e { OneFieldEnd(tokens, q, d, e); }
  }

  lemma NotLiteral(tokens: seq<PatternToken>, x: Syntax, p: nat, q: nat, e: nat)
    requires FieldEnds(tokens, p, q) && !NotANumber(tokens, p, q)
    requires tokens[q] == TChar(COMMA) ==> FieldEnds(tokens, q, e) && !NotANumber(tokens, q, e)
    ensures !BraceStays(tokens, x, p)
  {
    hide FieldValue;
    if LiteralBraceAt(tokens, p) {
      var d: nat :| FieldEnds(tokens, p, d)
        && (NotANumber(tokens, p, d) || (tokens[d] == TChar(COMMA) && SecondNotANumber(tokens, p, d)));
      OneFieldEnd(tokens, p, d, q);
      if !NotANumber(tokens, p, d) {
        var d2: nat :| FieldEnds(tokens, d, d2) && NotANumber(tokens, d, d2);
        OneFieldEnd(tokens, q, d2, e);
      }
    }
  }

  lemma IsLiteral(tokens: seq<PatternToken>, p: nat, q: nat, e: nat)
    requires FieldEnds(tokens, p, q)
    requires NotANumber(tokens, p, q) || (tokens[q] == TChar(COMMA) && FieldEnds(tokens, q, e) && NotANumber(tokens, q, e))
    ensures LiteralBraceAt(tokens, p)
  {
  }

  /** The pattern reads up to a place to which the error code applies. */
  ghost predicate Stops(tokens: seq<PatternToken>, x: Syntax, e: Error, z: Prefix, s: Place, first: bool, nested: bool) {
    Leads(tokens, x, z, s, first, nested) && Blames(tokens, x, e, z, s, first, nested)
  }

  lemma StopsHere(tokens: seq<PatternToken>, x: Syntax, e: Error, s: Place, first: bool, nested: bool)
    requires s.pos <= |tokens| && Blames(tokens, x, e, Upto(Blank), s, first, nested)
    ensures Stops(tokens, x, e, Upto(Blank), s, first, nested)
  {
  }

  /** An operator of an interval that is none. */
  lemma StopsAtBrace(tokens: seq<PatternToken>, x: Syntax, e: Error, a: Ast, s: Place, first: bool)
    requires Fits(tokens, x, a, s, first, false) && !a.Blank? && IsIntervalError(e)
    requires TokenAt(tokens, After(a, s).pos).TOpenDup? && BadIntervalAt(tokens, x, After(a, s).pos, e)
    ensures Stops(tokens, x, e, Upto(a), s, first, false)
  {
  }

  lemma StopsAtOperator(tokens: seq<PatternToken>, x: Syntax, a: Ast, s: Place, first: bool)
    requires a.Repeat? && Fits(tokens, x, a, s, first, false)
    requires x.contextInvalidDup && IsStarOrBrace(TokenAt(tokens, After(a, s).pos))
    ensures Stops(tokens, x, BadRepeat, Operator(a.body, a.lo, a.hi, a.spelling), s, first, false)
  {
  }

  lemma StopsBeside(tokens: seq<PatternToken>, x: Syntax, e: Error, l: Ast, z: Prefix, s: Place, nested: bool)
    requires Fits(tokens, x, l, s, true, nested) && TokenAt(tokens, After(l, s).pos) == TAlt
    requires Stops(tokens, x, e, z, NextBranch(l, s), true, nested)
    ensures Stops(tokens, x, e, Beside(l, z), s, true, nested)
  {
  }

  lemma StopsBehind(tokens: seq<PatternToken>, x: Syntax, e: Error, l: Ast, z: Prefix, s: Place, nested: bool)
    requires Fits(tokens, x, l, s, true, nested) && Stops(tokens, x, e, z, After(l, s), false, nested)
    ensures Stops(tokens, x, e, Behind(l, z), s, true, nested)
  {
  }

  lemma StopsPast(tokens: seq<PatternToken>, x: Syntax, e: Error, z: Prefix, s: Place)
    requires s.pos < |tokens| && PassedOver(x, tokens[s.pos]) && Stops(tokens, x, e, z, Passing(s), true, false)
    ensures Stops(tokens, x, e, Past(tokens[s.pos], z), s, true, false)
  {
  }

  lemma StopsInside(tokens: seq<PatternToken>, x: Syntax, e: Error, z: Prefix, s: Place, first: bool)
    requires TokenAt(tokens, s.pos) == TOpen && Stops(tokens, x, e, z, InGroupAt(s), true, true)
    ensures Stops(tokens, x, e, Inside(z), s, first, false)
  {
  }

  lemma StopsUnclosed(tokens: seq<PatternToken>, x: Syntax, a: Ast, s: Place, first: bool)
    requires TokenAt(tokens, s.pos) == TOpen && Fits(tokens, x, a, InGroupAt(s), true, true)
    requires TokenAt(tokens, After(a, InGroupAt(s)).pos).TEnd?
    ensures Stops(tokens, x, Paren, Inside(Upto(a)), s, first, false)
  {
  }

  /** The stopping places that an expression can have. */
  predicate OfExpression(z: Prefix) {
    match z
    case Upto(a) => Level(a) <= 1
    case Operator(a, _, _, _) => true
    case Past(_, _) => true
    case Inside(_) => true
    case _ => false
  }

  lemma StopsNested(tokens: seq<PatternToken>, x: Syntax, e: Error, z: Prefix, s: Place, first: bool, nested: bool)
    requires Stops(tokens, x, e, z, s, first, false) && OfExpression(z) && !(nested && TokenAt(tokens, s.pos).TClose?)
    ensures Stops(tokens, x, e, z, s, first, nested)
  {
    match z
    case Upto(a) => FitsNested(tokens, x, a, s, first, nested);
    case Operator(a, lo, hi, p) => FitsNested(tokens, x, Repeat(a, lo, hi, p), s, first, nested);
    case _ =>
  }

  // ----- What an error code presupposes -----

  lemma {:induction false} GroupOpened(tokens: seq<PatternToken>, x: Syntax, z: Prefix, s: Place, first: bool, nested: bool)
    requires Leads(tokens, x, z, s, first, nested) && InGroup(z)
    ensures TOpen in tokens
    decreases z
  {
    match z
    case Beside(l, rest) => GroupOpened(tokens, x, rest, NextBranch(l, s), true, nested);
    case Behind(l, rest) => GroupOpened(tokens, x, rest, After(l, s), false, nested);
    case Past(_, rest) => GroupOpened(tokens, x, rest, Passing(s), true, false);
    case Inside(rest) => assert tokens[s.pos] in tokens;
  }

  /** An error code is given only for patterns that have a token of its kind: a back-reference, a
      closing parenthesis, an opening one, an operator, or an opening brace. */
  lemma ErrorNeeds(tokens: seq<PatternToken>, x: Syntax, e: Error, z: Prefix)
    requires Stops(tokens, x, e, z, Beginning, true, false)
    ensures match e
      case SubReg => exists k :: TBackRef(k) in tokens
      case RightParen => TClose in tokens
      case Paren => TOpen in tokens
      case BadRepeat => TStar in tokens || TPlus in tokens || TQuestion in tokens || TOpenDup in tokens
      case _ => TOpenDup in tokens
  {
    hide Leads, EndOf, BadIntervalAt, Innermost, Loose, InGroup;
    if e.Paren? { GroupOpened(tokens, x, z, Beginning, true, false); }
    var t := TokenAt(tokens, EndOf(z, Beginning).pos);
    assert t != TEnd ==> t in tokens;
  }

  /** So there is one code only for a reference without group, a stray closing parenthesis, a
      group that is not closed, and operators where none may be. */
  lemma OneCode(tokens: seq<PatternToken>, x: Syntax, e: Error, z: Prefix, c: int)
    requires Stops(tokens, x, e, z, Beginning, true, false)
    ensures (exists k :: tokens == [TBackRef(k)]) ==> e == SubReg
    ensures tokens == [TClose] ==> e == RightParen
    ensures tokens == [TOpen, TChar(c)] ==> e == Paren
    ensures tokens == [TStar] || tokens == [TPlus] || tokens == [TQuestion] || tokens == [TChar(c), TStar, TStar] ==> e == BadRepeat
  {
    hide Stops;
    ErrorNeeds(tokens, x, e, z);
  }
}
