/** Patterns as token sequences, their syntax trees, and what they mean. */
module Patterns {
  import opened RegexTree

  /** What fetch_token delivers. Bracket expressions and the period count as one token. */
  datatype PatternToken =
    | TChar(c: int) | TLeaf(tok: Token) | TBackRef(idx: nat)
    | TOpen | TClose | TAlt
    | TStar | TPlus | TQuestion | TOpenDup | TCloseDup
    | TEnd

  const COMMA := 44
  const OPEN_BRACE := 123

  /** token->opr.c: the character a token was spelled with. */
  function CharOf(t: PatternToken): int {
    match t
    case TChar(c) => c
    case TClose => 41
    case TStar => 42
    case TPlus => 43
    case TQuestion => 63
    case TOpenDup => OPEN_BRACE
    case TCloseDup => 125
    case _ => 0
  }

  predicate IsDupToken(t: PatternToken) { t.TStar? || t.TPlus? || t.TQuestion? || t.TOpenDup? }

  /** The syntax bits that steer the parser. */
  datatype Syntax = Syntax(
    contextInvalidDup: bool, contextInvalidOps: bool, contextIndepOps: bool,
    unmatchedRightParenOrd: bool, invalidIntervalOrd: bool)

  /** Token sequences a lexer can deliver. */
  predicate TokensOk(tokens: seq<PatternToken>) {
    forall i | 0 <= i < |tokens| ::
      !tokens[i].TEnd? && (tokens[i].TLeaf? ==> tokens[i].tok.SimpleBracket? || tokens[i].tok.Period?)
  }

  function TokenAt(tokens: seq<PatternToken>, i: nat): PatternToken {
    if i < |tokens| then tokens[i] else TEnd
  }

  // ----- Syntax trees -----

  datatype Ast =
    | Or(left: Ast, right: Ast)
    | Then(left: Ast, right: Ast)
    | Blank
    | Repeat(body: Ast, lo: nat, hi: int, spelling: seq<PatternToken>)
    | Skip(t: PatternToken, body: Ast)  // an operator with nothing to apply to, passed over
    | Literal(t: PatternToken)
    | LeftBrace                         // a brace where no interval starts
    | Leaf(tok: Token)
    | Group(k: nat, body: Ast)
    | EmptyGroup(k: nat)
    | Ref(k: nat)

  /** The tokens a syntax tree is spelled with. */
  ghost function Spelling(a: Ast): seq<PatternToken> {
    match a
    case Or(l, r) => Spelling(l) + [TAlt] + Spelling(r)
    case Then(l, r) => Spelling(l) + Spelling(r)
    case Blank => []
    case Repeat(b, _, _, s) => Spelling(b) + s
    case Skip(t, b) => [t] + Spelling(b)
    case Literal(t) => [t]
    case LeftBrace => [TOpenDup]
    case Leaf(tok) => [TLeaf(tok)]
    case Group(_, b) => [TOpen] + Spelling(b) + [TClose]
    case EmptyGroup(_) => [TOpen, TClose]
    case Ref(k) => [TBackRef(k)]
  }

  /** How many tokens that is. */
  ghost function Width(a: Ast): nat {
    match a
    case Or(l, r) => Width(l) + 1 + Width(r)
    case Then(l, r) => Width(l) + Width(r)
    case Blank => 0
    case Repeat(b, _, _, s) => Width(b) + |s|
    case Skip(_, b) => 1 + Width(b)
    case Group(_, b) => Width(b) + 2
    case EmptyGroup(_) => 2
    case _ => 1
  }

  /** How loosely the top of the tree binds: alternation, juxtaposition, an operator passed
      over, repetition, atom. */
  function Level(a: Ast): nat {
    match a
    case Or(_, _) => 4
    case Then(_, _) => 3
    case Skip(_, _) => 2
    case Repeat(_, _, _, _) => 1
    case _ => 0
  }

  /** Tokens that may stand for their character. */
  predicate LiteralOk(x: Syntax, t: PatternToken) {
    || t.TChar? || t.TCloseDup? || (t.TClose? && x.unmatchedRightParenOrd)
    || (IsDupToken(t) && !x.contextInvalidOps && !x.contextIndepOps && !(t.TOpenDup? && x.contextInvalidDup))
  }

  // ----- Meaning -----

  /** The pattern matches the span [i, j). */
  ghost predicate AstMatches(m: Matcher, a: Ast, i: nat, j: nat)
    decreases a, 0
  {
    i <= j &&
    match a
    case Or(l, r) => AstMatches(m, l, i, j) || AstMatches(m, r, i, j)
    case Then(l, r) => exists k: nat | i <= k <= j :: AstMatches(m, l, i, k) && AstMatches(m, r, k, j)
    case Blank => i == j
    case Repeat(b, lo, hi, _) => exists n: nat | lo <= n && (hi == -1 || n <= hi) :: AstPower(m, b, n, i, j)
    case Skip(_, b) => AstMatches(m, b, i, j)
    case Literal(t) => m(Character(CharOf(t)), i, j)
    case LeftBrace => m(Character(OPEN_BRACE), i, j)
    case Leaf(tok) => m(tok, i, j)
    case Group(_, b) => AstMatches(m, b, i, j)
    case EmptyGroup(_) => i == j
    case Ref(k) => m(BackRef(k), i, j)
  }

  /** `n` times in a row. */
  ghost predicate AstPower(m: Matcher, a: Ast, n: nat, i: nat, j: nat)
    decreases a, n + 1
  {
    if n == 0 then i == j
    else exists k: nat | i <= k <= j :: AstMatches(m, a, i, k) && AstPower(m, a, n - 1, k, j)
  }

  // ----- Groups and back-references -----

  /** Groups are numbered by their opening parentheses, starting from `n`. */
  ghost predicate Numbered(a: Ast, n: nat) {
    match a
    case Or(l, r) => Numbered(l, n) && Numbered(r, NextNumber(l, n))
    case Then(l, r) => Numbered(l, n) && Numbered(r, NextNumber(l, n))
    case Repeat(b, _, _, _) => Numbered(b, n)
    case Skip(_, b) => Numbered(b, n)
    case Group(k, b) => k == n && Numbered(b, n + 1)
    case EmptyGroup(k) => k == n
    case _ => true
  }

  ghost function NextNumber(a: Ast, n: nat): nat {
    match a
    case Or(l, r) => NextNumber(r, NextNumber(l, n))
    case Then(l, r) => NextNumber(r, NextNumber(l, n))
    case Repeat(b, _, _, _) => NextNumber(b, n)
    case Skip(_, b) => NextNumber(b, n)
    case Group(_, b) => NextNumber(b, n + 1)
    case EmptyGroup(_) => n + 1
    case _ => n
  }

  /** The groups a back-reference may name: \1 to \9. */
  ghost function Nameable(k: nat): set<nat> { if k <= 8 then {k} else {} }

  /** The nameable groups that are closed after `a`, given those closed before it. What is
      closed in one alternative does not count inside the next, but counts after both. */
  ghost function Closed(a: Ast, before: set<nat>): set<nat> {
    match a
    case Or(l, r) => Closed(l, before) + Closed(r, before)
    case Then(l, r) => Closed(r, Closed(l, before))
    case Repeat(b, _, _, _) => Closed(b, before)
    case Skip(_, b) => Closed(b, before)
    case Group(k, b) => Closed(b, before) + Nameable(k)
    case EmptyGroup(k) => before + Nameable(k)
    case _ => before
  }

  /** Every back-reference names a group closed earlier and not in another alternative. */
  ghost predicate RefsInScope(a: Ast, before: set<nat>) {
    match a
    case Or(l, r) => RefsInScope(l, before) && RefsInScope(r, before)
    case Then(l, r) => RefsInScope(l, before) && RefsInScope(r, Closed(l, before))
    case Repeat(b, _, _, _) => RefsInScope(b, before)
    case Skip(_, b) => RefsInScope(b, before)
    case Group(_, b) => RefsInScope(b, before)
    case Ref(k) => k in before
    case _ => true
  }

  /** The groups that back-references name. */
  ghost function Referred(a: Ast): set<nat> {
    match a
    case Or(l, r) => Referred(l) + Referred(r)
    case Then(l, r) => Referred(l) + Referred(r)
    case Repeat(b, _, _, _) => Referred(b)
    case Skip(_, b) => Referred(b)
    case Group(_, b) => Referred(b)
    case Ref(k) => {k}
    case _ => {}
  }

  ghost function GroupsIn(a: Ast): set<nat> {
    match a
    case Or(l, r) => GroupsIn(l) + GroupsIn(r)
    case Then(l, r) => GroupsIn(l) + GroupsIn(r)
    case Repeat(b, _, _, _) => GroupsIn(b)
    case Skip(_, b) => GroupsIn(b)
    case Group(k, b) => {k} + GroupsIn(b)
    case EmptyGroup(k) => {k}
    case _ => {}
  }

  /** No back-reference names a group in another alternative, a group further on, or a group
      that it is in itself. */
  ghost predicate RefersBack(a: Ast) {
    match a
    case Or(l, r) => GroupsIn(l) !! Referred(r) && GroupsIn(r) !! Referred(l) && RefersBack(l) && RefersBack(r)
    case Then(l, r) => GroupsIn(r) !! Referred(l) && RefersBack(l) && RefersBack(r)
    case Repeat(b, _, _, _) => RefersBack(b)
    case Skip(_, b) => RefersBack(b)
    case Group(k, b) => k !in Referred(b) && RefersBack(b)
    case _ => true
  }

  lemma {:induction false} GroupNumbers(a: Ast, n: nat)
    requires Numbered(a, n)
    ensures n <= NextNumber(a, n) && forall k | k in GroupsIn(a) :: n <= k < NextNumber(a, n)
    decreases a
  {
    match a
    case Or(l, r) => GroupNumbers(l, n); GroupNumbers(r, NextNumber(l, n));
    case Then(l, r) => GroupNumbers(l, n); GroupNumbers(r, NextNumber(l, n));
    case Repeat(b, _, _, _) => GroupNumbers(b, n);
    case Skip(_, b) => GroupNumbers(b, n);
    case Group(_, b) => GroupNumbers(b, n + 1);
    case _ =>
  }

  lemma {:induction false} RefsKnown(a: Ast, before: set<nat>)
    requires RefsInScope(a, before)
    ensures Referred(a) <= before + GroupsIn(a) && Closed(a, before) <= before + GroupsIn(a)
    decreases a
  {
    match a
    case Or(l, r) => RefsKnown(l, before); RefsKnown(r, before);
    case Then(l, r) => RefsKnown(l, before); RefsKnown(r, Closed(l, before));
    case Repeat(b, _, _, _) => RefsKnown(b, before);
    case Skip(_, b) => RefsKnown(b, before);
    case Group(_, b) => RefsKnown(b, before);
    case _ =>
  }

  /** Every back-reference in scope names a group that was closed before. */
  lemma {:induction false} ScopeRefersBack(a: Ast, n: nat, before: set<nat>)
    requires Numbered(a, n) && RefsInScope(a, before) && forall k | k in before :: k < n
    ensures RefersBack(a)
    decreases a
  {
    match a
    case Or(l, r) =>
      var next := NextNumber(l, n);
      GroupNumbers(l, n); GroupNumbers(r, next);
      RefsKnown(l, before); RefsKnown(r, before);
      ScopeRefersBack(l, n, before);
      ScopeRefersBack(r, next, before);
    case Then(l, r) =>
      var next := NextNumber(l, n);
      GroupNumbers(l, n); GroupNumbers(r, next);
      RefsKnown(l, before);
      ScopeRefersBack(l, n, before);
      ScopeRefersBack(r, next, Closed(l, before));
    case Repeat(b, _, _, _) => ScopeRefersBack(b, n, before);
    case Skip(_, b) => ScopeRefersBack(b, n, before);
    case Group(k, b) =>
      GroupNumbers(b, n + 1);
      RefsKnown(b, before);
      ScopeRefersBack(b, n + 1, before);
    case _ =>
  }

  lemma {:induction false} ClosedGrows(a: Ast, before: set<nat>)
    ensures before <= Closed(a, before)
    decreases a
  {
    match a
    case Or(l, r) => ClosedGrows(l, before); ClosedGrows(r, before);
    case Then(l, r) => ClosedGrows(l, before); ClosedGrows(r, Closed(l, before));
    case Repeat(b, _, _, _) => ClosedGrows(b, before);
    case Skip(_, b) => ClosedGrows(b, before);
    case Group(_, b) => ClosedGrows(b, before);
    case _ =>
  }

  // ----- Intervals -----

  const RE_DUP_MAX := 0x7fff

  predicate IsDigit(t: PatternToken) { t.TChar? && 48 <= t.c <= 57 }

  ghost predicate AllDigits(s: seq<PatternToken>) { forall t | t in s :: IsDigit(t) }

  ghost function Decimal(s: seq<PatternToken>): nat
    requires AllDigits(s)
  {
    if s == [] then 0
    else assert s[|s| - 1] in s; 10 * Decimal(s[..|s| - 1]) + (s[|s| - 1].c - 48)
  }

  /** The number in a field of an interval: -1 if it is empty, -2 if it is not a number, and
      anything above RE_DUP_MAX is as good as RE_DUP_MAX + 1. */
  ghost function FieldValue(s: seq<PatternToken>): (v: int)
    ensures v >= -2
  {
    if s == [] then -1
    else if !AllDigits(s) then -2
    else if Decimal(s) <= RE_DUP_MAX then Decimal(s) else RE_DUP_MAX + 1
  }

  predicate EndsField(t: PatternToken) { t.TEnd? || t.TCloseDup? || t == TChar(COMMA) }

  /** One more token in the field. */
  lemma FieldValueNext(s: seq<PatternToken>, t: PatternToken)
    ensures FieldValue(s + [t]) ==
      if !IsDigit(t) || FieldValue(s) == -2 then -2
      else if FieldValue(s) == -1 then t.c - 48
      else if FieldValue(s) * 10 + t.c - 48 <= RE_DUP_MAX then FieldValue(s) * 10 + t.c - 48 else RE_DUP_MAX + 1
  {
    assert t in s + [t] && forall x | x in s :: x in s + [t];
    assert (s + [t])[..|s|] == s;
    if AllDigits(s) && IsDigit(t) {
      assert AllDigits(s + [t]);
      if s == [] { assert s + [t] == [t]; assert [t][..0] == []; }
    }
  }

  /** The tokens from `p` on spell a repetition operator that ends before `q`. */
  ghost predicate SpellsDup(s: seq<PatternToken>, lo: nat, hi: int) {
    || (s == [TStar] && lo == 0 && hi == -1)
    || (s == [TPlus] && lo == 1 && hi == -1)
    || (s == [TQuestion] && lo == 0 && hi == 1)
    || (exists f :: SpellsExact(s, f, lo, hi))
    || (exists f, g :: SpellsRange(s, f, g, lo, hi))
  }

  /** {n} */
  ghost predicate SpellsExact(s: seq<PatternToken>, f: seq<PatternToken>, lo: nat, hi: int) {
    s == [TOpenDup] + f + [TCloseDup] && FieldValue(f) == lo == hi && lo <= RE_DUP_MAX
  }

  /** {n,m}, {n,}, {,m} and {,} */
  ghost predicate SpellsRange(s: seq<PatternToken>, f: seq<PatternToken>, g: seq<PatternToken>, lo: nat, hi: int) {
    && s == [TOpenDup] + f + [TChar(COMMA)] + g + [TCloseDup]
    && FieldValue(f) >= -1 && lo == (if FieldValue(f) == -1 then 0 else FieldValue(f)) && FieldValue(g) == hi
    && (if hi == -1 then lo <= RE_DUP_MAX else lo <= hi <= RE_DUP_MAX)
  }

  /** No well-formed interval starts at the brace at `p`. */
  ghost predicate NoIntervalAt(tokens: seq<PatternToken>, p: nat) {
    forall q, lo: nat, hi: int | p < q <= |tokens| :: !SpellsDup(tokens[p..q], lo, hi)
  }

  /** `e` is where the field that starts after `p` ends. */
  ghost predicate FieldEnds(tokens: seq<PatternToken>, p: nat, e: nat) {
    p < e <= |tokens| && EndsField(TokenAt(tokens, e)) && forall k | p < k < e :: !EndsField(tokens[k])
  }

  /** A brace does not look like the start of an interval: what should be a number is not
      one, or the pattern ends first. */
  ghost predicate LiteralBraceAt(tokens: seq<PatternToken>, p: nat) {
    exists e: nat :: FieldEnds(tokens, p, e) && (NotANumber(tokens, p, e) || (tokens[e] == TChar(COMMA) && SecondNotANumber(tokens, p, e)))
  }

  ghost predicate NotANumber(tokens: seq<PatternToken>, p: nat, e: nat)
    requires FieldEnds(tokens, p, e)
  {
    e == |tokens| || FieldValue(tokens[p + 1..e]) == -2
  }

  ghost predicate SecondNotANumber(tokens: seq<PatternToken>, p: nat, e: nat) {
    exists e2: nat :: FieldEnds(tokens, e, e2) && NotANumber(tokens, e, e2)
  }

  lemma NumberHasNoEnd(tokens: seq<PatternToken>, p: nat, e: nat)
    requires p < e < |tokens| && FieldValue(tokens[p + 1..e]) >= -1 && EndsField(tokens[e])
    ensures FieldEnds(tokens, p, e)
  {
    forall k | p < k < e ensures !EndsField(tokens[k]) {
      assert tokens[p + 1..e][k - p - 1] == tokens[k];
      assert tokens[k] in tokens[p + 1..e];
    }
  }

  lemma OneFieldEnd(tokens: seq<PatternToken>, p: nat, e: nat, e': nat)
    requires FieldEnds(tokens, p, e) && FieldEnds(tokens, p, e')
    ensures e == e'
  {
  }

  /** The bounds an interval may have. */
  predicate GoodBounds(v: int, w: int) {
    v >= -1 && w >= -1 && (if w == -1 then v <= RE_DUP_MAX else v <= w <= RE_DUP_MAX)
  }

  lemma SliceOf(s: seq<PatternToken>, p: nat, q: nat, i: nat, j: nat)
    requires p <= q <= |s| && i <= j <= q - p
    ensures s[p..q][i..j] == s[p + i..p + j]
  {
    var x, y := s[p..q][i..j], s[p + i..p + j];
    forall k | 0 <= k < |x| ensures x[k] == y[k] { assert s[p..q][i + k] == s[p + (i + k)]; }
  }

  lemma ExactField(s: seq<PatternToken>, f: seq<PatternToken>)
    requires s == [TOpenDup] + f + [TCloseDup]
    ensures |s| == |f| + 2 && s[1..|f| + 1] == f && s[|f| + 1] == TCloseDup
  {
  }

  lemma RangeFields(s: seq<PatternToken>, f: seq<PatternToken>, g: seq<PatternToken>)
    requires s == [TOpenDup] + f + [TChar(COMMA)] + g + [TCloseDup]
    ensures |s| == |f| + |g| + 3 && s[1..|f| + 1] == f && s[|f| + 1] == TChar(COMMA)
    ensures s[|f| + 2..|f| + |g| + 2] == g && s[|f| + |g| + 2] == TCloseDup
  {
  }

  /** Where the fields of an interval are. */
  lemma IntervalFields(tokens: seq<PatternToken>, p: nat, q: nat, lo: nat, hi: int) returns (e1: nat, e2: nat)
    requires p < q <= |tokens| && tokens[p] == TOpenDup && SpellsDup(tokens[p..q], lo, hi)
    ensures FieldEnds(tokens, p, e1) && e1 < |tokens| && FieldValue(tokens[p + 1..e1]) >= -1
    ensures tokens[e1].TCloseDup? ==> 0 <= FieldValue(tokens[p + 1..e1]) <= RE_DUP_MAX
    ensures tokens[e1].TCloseDup? ==> q == e1 + 1 && lo == hi == FieldValue(tokens[p + 1..e1])
    ensures !tokens[e1].TCloseDup? ==>
      && tokens[e1] == TChar(COMMA) && FieldEnds(tokens, e1, e2) && e2 < |tokens| && tokens[e2].TCloseDup?
      && GoodBounds(FieldValue(tokens[p + 1..e1]), FieldValue(tokens[e1 + 1..e2]))
      && q == e2 + 1 && hi == FieldValue(tokens[e1 + 1..e2])
      && lo == (if FieldValue(tokens[p + 1..e1]) == -1 then 0 else FieldValue(tokens[p + 1..e1]))
  {
    hide FieldValue, SpellsExact, SpellsRange, FieldEnds;
    var s := tokens[p..q];
    assert s[0] == tokens[p];
    if f :| SpellsExact(s, f, lo, hi) {
      e1 := ExactAt(tokens, p, q, f, lo, hi);
      e2 := e1;
    } else {
      var f, g :| SpellsRange(s, f, g, lo, hi);
      e1, e2 := RangeAt(tokens, p, q, f, g, lo, hi);
    }
  }

  lemma ExactAt(tokens: seq<PatternToken>, p: nat, q: nat, f: seq<PatternToken>, lo: nat, hi: int) returns (e1: nat)
    requires p < q <= |tokens| && SpellsExact(tokens[p..q], f, lo, hi)
    ensures FieldEnds(tokens, p, e1) && e1 < |tokens| && q == e1 + 1 && tokens[e1] == TCloseDup
    ensures lo == hi == FieldValue(tokens[p + 1..e1]) && lo <= RE_DUP_MAX
  {
    hide FieldValue, FieldEnds;
    var s := tokens[p..q];
    ExactField(s, f);
    e1 := p + 1 + |f|;
    SliceOf(tokens, p, q, 1, |f| + 1);
    assert s[|f| + 1] == tokens[e1];
    NumberHasNoEnd(tokens, p, e1);
  }

  lemma RangeAt(tokens: seq<PatternToken>, p: nat, q: nat, f: seq<PatternToken>, g: seq<PatternToken>, lo: nat, hi: int)
    returns (e1: nat, e2: nat)
    requires p < q <= |tokens| && SpellsRange(tokens[p..q], f, g, lo, hi)
    ensures FieldEnds(tokens, p, e1) && e1 < |tokens| && tokens[e1] == TChar(COMMA)
    ensures FieldEnds(tokens, e1, e2) && e2 < |tokens| && q == e2 + 1 && tokens[e2] == TCloseDup
    ensures f == tokens[p + 1..e1] && g == tokens[e1 + 1..e2] && GoodBounds(FieldValue(f), FieldValue(g)) && hi == FieldValue(g)
    ensures lo == if FieldValue(f) == -1 then 0 else FieldValue(f)
  {
    hide FieldValue, FieldEnds;
    var s := tokens[p..q];
    RangeFields(s, f, g);
    e1, e2 := p + 1 + |f|, p + 2 + |f| + |g|;
    SliceOf(tokens, p, q, 1, |f| + 1);
    SliceOf(tokens, p, q, |f| + 2, |f| + |g| + 2);
    assert s[|f| + 1] == tokens[e1] && s[|f| + |g| + 2] == tokens[e2];
    NumberHasNoEnd(tokens, p, e1);
    NumberHasNoEnd(tokens, e1, e2);
  }

  /** When the fields are not those of an interval, there is none. */
  lemma Rejected(tokens: seq<PatternToken>, p: nat, e1: nat, e2: nat)
    requires p < |tokens| && tokens[p] == TOpenDup && FieldEnds(tokens, p, e1)
    requires e1 < |tokens| && tokens[e1].TCloseDup? ==> !(0 <= FieldValue(tokens[p + 1..e1]) <= RE_DUP_MAX)
    requires e1 < |tokens| && tokens[e1] == TChar(COMMA) && FieldValue(tokens[p + 1..e1]) >= -1 ==>
      && FieldEnds(tokens, e1, e2)
      && (e2 < |tokens| && tokens[e2].TCloseDup? ==>
            !GoodBounds(FieldValue(tokens[p + 1..e1]), FieldValue(tokens[e1 + 1..e2])))
    ensures NoIntervalAt(tokens, p)
  {
    forall q, lo: nat, hi: int | p < q <= |tokens| ensures !SpellsDup(tokens[p..q], lo, hi) {
      if SpellsDup(tokens[p..q], lo, hi) {
        var d1, d2 := IntervalFields(tokens, p, q, lo, hi);
        OneFieldEnd(tokens, p, e1, d1);
        if !tokens[d1].TCloseDup? { OneFieldEnd(tokens, e1, e2, d2); }
      }
    }
  }

  /** A brace taken literally does not start an interval. */
  lemma LiteralNoInterval(tokens: seq<PatternToken>, p: nat)
    requires p < |tokens| && tokens[p] == TOpenDup && LiteralBraceAt(tokens, p)
    ensures NoIntervalAt(tokens, p)
  {
    var e: nat :| FieldEnds(tokens, p, e)
      && (NotANumber(tokens, p, e) || (tokens[e] == TChar(COMMA) && SecondNotANumber(tokens, p, e)));
    if NotANumber(tokens, p, e) {
      Rejected(tokens, p, e, e);
    } else {
      var e2: nat :| FieldEnds(tokens, e, e2) && NotANumber(tokens, e, e2);
      Rejected(tokens, p, e, e2);
    }
  }

  /** An operator is spelled in one way only: where it starts determines where it ends, and
      how often it repeats. */
  lemma OneDup(tokens: seq<PatternToken>, p: nat, q: nat, lo: nat, hi: int, q': nat, lo': nat, hi': int)
    requires p <= q <= |tokens| && p <= q' <= |tokens|
    requires SpellsDup(tokens[p..q], lo, hi) && SpellsDup(tokens[p..q'], lo', hi')
    ensures p < q && p < |tokens| && IsDupToken(tokens[p]) && q == q' && lo == lo' && hi == hi'
  {
    DupStarts(tokens, p, q, lo, hi);
    DupStarts(tokens, p, q', lo', hi');
    if tokens[p].TOpenDup? {
      var e1, e2 := IntervalFields(tokens, p, q, lo, hi);
      var d1, d2 := IntervalFields(tokens, p, q', lo', hi');
      OneFieldEnd(tokens, p, e1, d1);
      if !tokens[e1].TCloseDup? { OneFieldEnd(tokens, e1, e2, d2); }
    }
  }

  lemma DupStarts(tokens: seq<PatternToken>, p: nat, q: nat, lo: nat, hi: int)
    requires p <= q <= |tokens| && SpellsDup(tokens[p..q], lo, hi)
    ensures p < q && IsDupToken(tokens[p])
    ensures tokens[p].TStar? ==> q == p + 1 && lo == 0 && hi == -1
    ensures tokens[p].TPlus? ==> q == p + 1 && lo == 1 && hi == -1
    ensures tokens[p].TQuestion? ==> q == p + 1 && lo == 0 && hi == 1
  {
    var s := tokens[p..q];
    assert |s| > 0;
    assert s[0] == tokens[p];
  }
}
