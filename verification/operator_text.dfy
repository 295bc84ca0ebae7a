/** Operators, groups and braces in other places than after a single character. */
module OperatorTexts {
  import opened RegexTree
  import opened Patterns
  import opened Readings
  import opened Numerals
  import opened Lexer
  import opened PatternTexts
  import opened Shapes

  /** The operators of one character: with a backslash or without, as the syntax asks for. */
  predicate IsOperator(op: string, b: LexBits) {
    || op == "*"
    || (!b.limitedOps && op == (if b.bkPlusQm then "\\+" else "+"))
    || (!b.limitedOps && op == (if b.bkPlusQm then "\\?" else "?"))
    || (b.intervals && op == OpenBrace(b))
  }

  /** The text is read in no way. */
  ghost predicate NoReading(s: string, b: LexBits, x: Syntax) {
    var l := Lex(s, 0, b);
    l.Tokens? && forall a :: !Spells(l.tokens, x, a)
  }

  /** The text is read in one way, which matches the tokens one after the other. */
  ghost predicate ReadsAlong(s: string, b: LexBits, x: Syntax, toks: seq<Token>) {
    var l := Lex(s, 0, b);
    && l.Tokens? && (exists a :: Spells(l.tokens, x, a))
    && forall a, m: Matcher, i, j | Spells(l.tokens, x, a) :: AstMatches(m, a, i, j) <==> Along(m, toks, i, j)
  }

  lemma ReadsAlongIs(s: string, b: LexBits, x: Syntax, r: Ast, toks: seq<Token>)
    requires Lex(s, 0, b).Tokens? && Spells(Lex(s, 0, b).tokens, x, r)
    requires forall m: Matcher, i, j :: AstMatches(m, r, i, j) <==> Along(m, toks, i, j)
    ensures ReadsAlong(s, b, x, toks)
  {
    hide Lex, Spells, AstMatches, Along;
    var tokens := Lex(s, 0, b).tokens;
    forall a | Spells(tokens, x, a) ensures a == r { OneReading(tokens, x, a, r); }
  }

  lemma NothingReads(tokens: seq<PatternToken>, x: Syntax, ok0: bool, a0: Ast)
    requires !EndsBranch(TokenAt(tokens, 0), false) && !PassedOver(x, TokenAt(tokens, 0))
    requires AtomDecided(tokens, x, Beginning, true, ok0, a0)
    requires ok0 ==> RepeatDecided(tokens, x, Beginning, true, a0, false, a0)
    ensures forall a :: !Spells(tokens, x, a)
  {
    hide AtomDecided, RepeatDecided;
    ExpressionAtom(tokens, x, Beginning, true, ok0, a0, false, a0);
    BranchStarts(tokens, x, Beginning, false, false, a0, a0);
    PatternStarts(tokens, x, Beginning, false, false, a0, a0);
    AllDecided(tokens, x, false, a0);
  }

  /** A brace after a character that neither starts an interval nor may stay. */
  lemma NoRepetition(c: char, op: seq<PatternToken>, tokens: seq<PatternToken>, x: Syntax)
    requires tokens == [TChar(c as int)] + op && op != [] && op[0] == TOpenDup
    requires NoIntervalAt(tokens, 1) && !BraceStays(tokens, x, 1)
    ensures forall a :: !Spells(tokens, x, a)
  {
    hide NoIntervalAt, BraceStays;
    var a := Literal(TChar(c as int));
    assert Fits(tokens, x, a, Beginning, true, false) && After(a, Beginning).pos == 1;
    AtomSame(tokens, x, Beginning, true, a);
    RepeatStarts(tokens, x, Beginning, true, a);
    RepeatFails(tokens, x, Beginning, true, a, a, a);
    NothingReads(tokens, x, true, a);
  }

  // ----- An operator with nothing to apply to -----

  /** The character of an operator, without its backslash. */
  function OperatorChar(op: string): char
    requires op != ""
  {
    if op[0] == '\\' && |op| > 1 then op[1] else op[0]
  }

  lemma OperatorToken(op: string, c: char, b: LexBits) returns (t: PatternToken)
    requires IsOperator(op, b) && Ordinary(c)
    ensures op != "" && Lex(op + [c], 0, b) == Tokens([t, TChar(c as int)])
    ensures IsDupToken(t) && (t.TOpenDup? <==> OperatorChar(op) == '{') && CharOf(t) == OperatorChar(op) as int
  {
    var s := op + [c];
    var p := PeekToken(s, 0, b);
    t := p.t;
    assert p == Read(t, |op|);
    OrdinaryRead(s, |op|, b);
    hide PeekToken;
    assert Lex(s, |s|, b) == Tokens([]);
    assert Lex(s, |op|, b) == Tokens([TChar(c as int)] + []);
    assert [t] + [TChar(c as int)] == [t, TChar(c as int)];
  }

  /** An operator at the start of a pattern is an error with RE_CONTEXT_INVALID_OPS, and the
      brace also with RE_CONTEXT_INVALID_DUP; else, with RE_CONTEXT_INDEP_OPS, it is passed
      over, and without, it stands for its own character. */
  lemma LeadingOperator(op: string, c: char, b: LexBits, x: Syntax)
    requires IsOperator(op, b) && Ordinary(c)
    ensures op != ""
    ensures var bad := x.contextInvalidOps || (x.contextInvalidDup && OperatorChar(op) == '{');
      && (bad ==> NoReading(op + [c], b, x))
      && (!bad && x.contextIndepOps ==> ReadsAlong(op + [c], b, x, [Character(c as int)]))
      && (!bad && !x.contextIndepOps ==> ReadsAlong(op + [c], b, x, [Character(OperatorChar(op) as int), Character(c as int)]))
  {
    hide Lex, ReadsAlong;
    var t := OperatorToken(op, c, b);
    var tokens := [t, TChar(c as int)];
    hide IsOperator, Ordinary;
    if x.contextInvalidOps || (x.contextInvalidDup && t.TOpenDup?) {
      AtomNone(tokens, x, Beginning, true, Blank);
      NothingReads(tokens, x, false, Blank);
    } else if x.contextIndepOps {
      PassedOperator(t, c, x);
      ReadsAlongIs(op + [c], b, x, Skip(t, Literal(TChar(c as int))), [Character(c as int)]);
    } else {
      LiteralOperator(t, c, x);
      ReadsAlongIs(op + [c], b, x, Then(Literal(t), Literal(TChar(c as int))),
                   [Character(CharOf(t)), Character(c as int)]);
    }
  }

  lemma AlongOne(m: Matcher, tok: Token, i: nat, j: nat)
    ensures Along(m, [tok], i, j) <==> i <= j && m(tok, i, j)
  {
    assert [tok] + [] == [tok];
    AlongFirst(m, tok, [], i, j);
    forall k: nat ensures Along(m, [], k, j) <==> k == j { AlongNone(m, k, j); }
  }

  lemma AlongTwo(m: Matcher, t: Token, u: Token, i: nat, j: nat)
    ensures Along(m, [t, u], i, j) <==> exists k: nat :: i <= k <= j && m(t, i, k) && m(u, k, j)
  {
    assert [t] + [u] == [t, u];
    AlongFirst(m, t, [u], i, j);
    forall k: nat ensures Along(m, [u], k, j) <==> k <= j && m(u, k, j) { AlongOne(m, u, k, j); }
    hide Along;
  }

  lemma PassedOperator(t: PatternToken, c: char, x: Syntax)
    requires IsDupToken(t) && x.contextIndepOps && !x.contextInvalidOps && !(x.contextInvalidDup && t.TOpenDup?)
    ensures var r := Skip(t, Literal(TChar(c as int)));
      && Spells([t, TChar(c as int)], x, r)
      && forall m: Matcher, i, j :: AstMatches(m, r, i, j) <==> Along(m, [Character(c as int)], i, j)
  {
    var tokens, l := [t, TChar(c as int)], Literal(TChar(c as int));
    assert Reads(tokens, x, l, 1, true, false);
    assert Reads(tokens, x, Skip(t, l), 0, true, false);
    assert RefsInScope(l, {}) && Numbered(l, 0);
    forall m: Matcher, i, j ensures AstMatches(m, Skip(t, l), i, j) <==> Along(m, [Character(c as int)], i, j) {
      assert AstMatches(m, l, i, j) <==> i <= j && m(Character(c as int), i, j);
      AlongOne(m, Character(c as int), i, j);
    }
  }

  lemma LiteralOperator(t: PatternToken, c: char, x: Syntax)
    requires IsDupToken(t) && !x.contextIndepOps && !x.contextInvalidOps && !(x.contextInvalidDup && t.TOpenDup?)
    ensures var r := Then(Literal(t), Literal(TChar(c as int)));
      && Spells([t, TChar(c as int)], x, r)
      && forall m: Matcher, i, j :: AstMatches(m, r, i, j) <==> Along(m, [Character(CharOf(t)), Character(c as int)], i, j)
  {
    var tokens, l, r := [t, TChar(c as int)], Literal(t), Literal(TChar(c as int));
    assert Reads(tokens, x, l, 0, true, false) && Reads(tokens, x, r, 1, false, false);
    assert Reads(tokens, x, Then(l, r), 0, true, false);
    assert RefsInScope(l, {}) && Closed(l, {}) == {} && RefsInScope(r, {}) && Numbered(l, 0) && NextNumber(l, 0) == 0 && Numbered(r, 0);
    forall m: Matcher, i, j ensures AstMatches(m, Then(l, r), i, j) <==> Along(m, [Character(CharOf(t)), Character(c as int)], i, j) {
      BothMatch(m, l, r, i, j);
      AlongTwo(m, Character(CharOf(t)), Character(c as int), i, j);
      hide AstMatches, Along, CharOf;
    }
  }

  lemma BothMatch(m: Matcher, l: Ast, r: Ast, i: nat, j: nat)
    requires l.Literal? && r.Literal?
    ensures AstMatches(m, Then(l, r), i, j) <==>
      exists k: nat :: i <= k <= j && m(Character(CharOf(l.t)), i, k) && m(Character(CharOf(r.t)), k, j)
  {
    if AstMatches(m, Then(l, r), i, j) {
      var k := ThenSplits(m, Then(l, r), i, j);
      assert m(Character(CharOf(l.t)), i, k) && m(Character(CharOf(r.t)), k, j);
    }
    if k: nat :| i <= k <= j && m(Character(CharOf(l.t)), i, k) && m(Character(CharOf(r.t)), k, j) {
      assert AstMatches(m, l, i, k) && AstMatches(m, r, k, j);
    }
  }

  // ----- A second operator, and a brace that starts no interval -----

  /** c** is an error with RE_CONTEXT_INVALID_DUP, and a pattern without. */
  lemma TwiceText(c: char, b: LexBits, x: Syntax)
    requires Ordinary(c)
    ensures var l := Lex([c, '*', '*'], 0, b);
      l.Tokens? && ((exists a :: Spells(l.tokens, x, a)) <==> !x.contextInvalidDup)
  {
    var s, t := [c, '*', '*'], TChar(c as int);
    var tokens := [t, TStar, TStar];
    OrdinaryRead(s, 0, b);
    assert PeekToken(s, 1, b) == Read(TStar, 1) == PeekToken(s, 2, b);
    hide PeekToken;
    assert Lex(s, 3, b) == Tokens([]);
    assert Lex(s, 2, b) == Tokens([TStar]);
    assert Lex(s, 1, b) == Tokens([TStar, TStar]);
    assert Lex(s, 0, b) == Tokens(tokens);
    hide Lex;
    if x.contextInvalidDup { TwiceNone(t, x); } else { TwiceReads(t, x); }
  }

  lemma TwiceNone(t: PatternToken, x: Syntax)
    requires t.TChar? && x.contextInvalidDup
    ensures forall a :: !Spells([t, TStar, TStar], x, a)
  {
    var tokens, a := [t, TStar, TStar], Literal(t);
    assert tokens[1..2] == [TStar];
    assert SpellsDup(tokens[1..2], 0, -1) by { OperatorReads(0, -1); }
    hide SpellsDup;
    assert Fits(tokens, x, a, Beginning, true, false) && After(a, Beginning).pos == 1;
    AtomSame(tokens, x, Beginning, true, a);
    RepeatStarts(tokens, x, Beginning, true, a);
    RepeatNext(tokens, x, Beginning, true, a, a, 2, 0, -1);
    var r := Repeat(a, 0, -1, tokens[1..2]);
    assert After(r, Beginning).pos == 2;
    hide RepeatGoesOn, RepeatDecided, AtomDecided, Fits;
    RepeatTwice(tokens, x, Beginning, true, a, r, a);
    NothingReads(tokens, x, true, a);
  }

  lemma TwiceReads(t: PatternToken, x: Syntax)
    requires t.TChar? && !x.contextInvalidDup
    ensures exists a :: Spells([t, TStar, TStar], x, a)
  {
    var tokens, a := [t, TStar, TStar], Literal(t);
    var r := Repeat(a, 0, -1, [TStar]);
    var q := Repeat(r, 0, -1, [TStar]);
    OperatorReads(0, -1);
    hide SpellsDup;
    assert tokens[1..2] == [TStar] == tokens[2..3];
    assert Reads(tokens, x, a, 0, true, false);
    assert Reads(tokens, x, r, 0, true, false);
    assert TopFits(tokens, x, q, 0, true, false);
    assert Reads(tokens, x, q, 0, true, false);
    assert RefsInScope(a, {}) && RefsInScope(r, {}) && Numbered(a, 0) && Numbered(r, 0);
    assert Spells(tokens, x, q);
  }

  /** A plus or a question mark may follow a star under any syntax. */
  lemma SecondOperator(t: PatternToken, op: PatternToken, x: Syntax)
    requires t.TChar? && (op == TPlus || op == TQuestion)
    ensures exists a :: Spells([t, TStar, op], x, a)
  {
    var tokens, a := [t, TStar, op], Literal(t);
    var lo, hi := if op == TPlus then 1 else 0, if op == TPlus then -1 else 1;
    var r := Repeat(a, 0, -1, [TStar]);
    var q := Repeat(r, lo, hi, [op]);
    OperatorReads(0, -1);
    OperatorReads(lo, hi);
    hide SpellsDup;
    assert tokens[1..2] == [TStar] && tokens[2..3] == [op];
    assert Reads(tokens, x, a, 0, true, false);
    assert Reads(tokens, x, r, 0, true, false);
    assert TopFits(tokens, x, q, 0, true, false);
    assert Reads(tokens, x, q, 0, true, false);
    assert RefsInScope(a, {}) && RefsInScope(r, {}) && Numbered(a, 0) && Numbered(r, 0);
    assert Spells(tokens, x, q);
  }

  /** The empty text matches nothing at all, and so may one side of an alternative. */
  lemma EmptyText(c: int, b: LexBits, x: Syntax, m: Matcher, i: nat, j: nat)
    ensures Lex("", 0, b) == Tokens([]) && Spells([], x, Blank) && (AstMatches(m, Blank, i, j) <==> i == j)
    ensures var a := Or(Literal(TChar(c)), Blank);
      Spells([TChar(c), TAlt], x, a) && (AstMatches(m, a, i, j) <==> i == j || (i <= j && m(Character(c), i, j)))
  {
    var tokens, l := [TChar(c), TAlt], Literal(TChar(c));
    assert Reads([], x, Blank, 0, true, false);
    assert Reads(tokens, x, l, 0, true, false) && Reads(tokens, x, Blank, 2, true, false);
    assert Reads(tokens, x, Or(l, Blank), 0, true, false);
    PlainScope(l, {}, 0);
    assert RefsInScope(Blank, {}) && Numbered(Blank, 0);
  }

  /** In c{d, where no interval starts, the brace stands for itself with RE_INVALID_INTERVAL_ORD,
      and is an error without. */
  lemma BraceText(c: char, d: char, b: LexBits, x: Syntax)
    requires Ordinary(c) && Ordinary(d) && d != ',' && b.intervals
    ensures var s := [c] + OpenBrace(b) + [d];
      if x.invalidIntervalOrd then ReadsAlong(s, b, x, [Character(c as int), Character('{' as int), Character(d as int)])
      else NoReading(s, b, x)
  {
    var open := OpenBrace(b);
    var s := [c] + open + [d];
    var t, u := TChar(c as int), TChar(d as int);
    var tokens := [t, TOpenDup, u];
    OrdinaryRead(s, 0, b);
    OrdinaryRead(s, |s| - 1, b);
    assert s[1] == open[0] && (|open| > 1 ==> s[2] == open[1]);
    assert PeekToken(s, 1, b) == Read(TOpenDup, |open|);
    hide PeekToken;
    assert Lex(s, |s|, b) == Tokens([]);
    assert Lex(s, |s| - 1, b) == Tokens([u]);
    assert Lex(s, 1, b) == Tokens([TOpenDup, u]);
    assert Lex(s, 0, b) == Tokens(tokens);
    hide Lex, ReadsAlong;
    assert FieldEnds(tokens, 1, 3);
    if x.invalidIntervalOrd {
      BraceReads(t, u, x);
      ReadsAlongIs(s, b, x, Then(Then(Literal(t), LeftBrace), Literal(u)),
                   [Character(c as int), Character('{' as int), Character(d as int)]);
    } else {
      Rejected(tokens, 1, 3, 3);
      assert tokens == [t] + [TOpenDup, u];
      NoRepetition(c, [TOpenDup, u], tokens, x);
    }
  }

  lemma BraceReads(t: PatternToken, u: PatternToken, x: Syntax)
    requires t.TChar? && u.TChar? && x.invalidIntervalOrd && FieldEnds([t, TOpenDup, u], 1, 3)
    ensures var r := Then(Then(Literal(t), LeftBrace), Literal(u));
      && Spells([t, TOpenDup, u], x, r)
      && forall m: Matcher, i, j ::
           AstMatches(m, r, i, j) <==> Along(m, [Character(t.c), Character('{' as int), Character(u.c)], i, j)
  {
    var tokens, l := [t, TOpenDup, u], Then(Literal(t), LeftBrace);
    var r := Then(l, Literal(u));
    assert LiteralBraceAt(tokens, 1) by { assert NotANumber(tokens, 1, 3); }
    hide LiteralBraceAt;
    assert Reads(tokens, x, l.left, 0, true, false) && Reads(tokens, x, LeftBrace, 1, false, false);
    assert Reads(tokens, x, l, 0, true, false) && Reads(tokens, x, Literal(u), 2, false, false);
    assert Reads(tokens, x, r, 0, true, false);
    BraceScope(t, u);
    forall m: Matcher, i, j
      ensures AstMatches(m, r, i, j) <==> Along(m, [Character(t.c), Character('{' as int), Character(u.c)], i, j)
    {
      BraceMeans(m, t, u, i, j);
    }
    hide Reads, AstMatches, Along;
  }

  lemma BraceScope(t: PatternToken, u: PatternToken)
    ensures var r := Then(Then(Literal(t), LeftBrace), Literal(u)); RefsInScope(r, {}) && Numbered(r, 0)
  {
    PlainScope(Literal(t), {}, 0);
    PlainScope(LeftBrace, {}, 0);
    PlainScope(Literal(u), {}, 0);
    PairScope(Literal(t), LeftBrace);
    PairScope(Then(Literal(t), LeftBrace), Literal(u));
  }

  lemma PlainScope(a: Ast, before: set<nat>, n: nat)
    requires a.Literal? || a.LeftBrace?
    ensures RefsInScope(a, before) && Closed(a, before) == before && Numbered(a, n) && NextNumber(a, n) == n
  {
  }

  lemma PairScope(l: Ast, r: Ast)
    requires RefsInScope(l, {}) && Closed(l, {}) == {} && Numbered(l, 0) && NextNumber(l, 0) == 0
    requires RefsInScope(r, {}) && Closed(r, {}) == {} && Numbered(r, 0) && NextNumber(r, 0) == 0
    ensures var a := Then(l, r); RefsInScope(a, {}) && Closed(a, {}) == {} && Numbered(a, 0) && NextNumber(a, 0) == 0
  {
  }

  lemma BraceMeans(m: Matcher, t: PatternToken, u: PatternToken, i: nat, j: nat)
    requires t.TChar? && u.TChar?
    ensures AstMatches(m, Then(Then(Literal(t), LeftBrace), Literal(u)), i, j) <==>
      Along(m, [Character(t.c), Character('{' as int), Character(u.c)], i, j)
  {
    var l := Then(Literal(t), LeftBrace);
    var r := Then(l, Literal(u));
    var first, brace, last := Character(t.c), Character('{' as int), Character(u.c);
    assert [first, brace, last] == [first, brace] + [last];
    AlongLast(m, [first, brace], last, i, j);
    forall k: nat ensures Along(m, [first, brace], i, k) <==> AstMatches(m, l, i, k) {
      AlongTwo(m, first, brace, i, k);
      if AstMatches(m, l, i, k) { var e := ThenSplits(m, l, i, k); }
      if e: nat :| i <= e <= k && m(first, i, e) && m(brace, e, k) {
        assert AstMatches(m, l.left, i, e) && AstMatches(m, l.right, e, k);
      }
    }
    hide Along;
    if AstMatches(m, r, i, j) {
      var k := ThenSplits(m, r, i, j);
      assert Along(m, [first, brace], i, k) && m(last, k, j);
    }
    if k: nat :| i <= k <= j && Along(m, [first, brace], i, k) && m(last, k, j) {
      assert AstMatches(m, l, i, k) && AstMatches(m, r.right, k, j);
    }
  }

  // ----- Single tokens, alternatives and groups -----

  lemma OneTokenReads(t: PatternToken, x: Syntax, a: Ast, tok: Token)
    requires (a == Literal(t) && LiteralOk(x, t) && tok == Character(CharOf(t))) || (t.TLeaf? && a == Leaf(t.tok) && tok == t.tok)
    ensures Spells([t], x, a)
    ensures forall m: Matcher, i, j :: AstMatches(m, a, i, j) <==> Along(m, [tok], i, j)
  {
    assert Reads([t], x, a, 0, true, false);
    forall m: Matcher, i, j ensures AstMatches(m, a, i, j) <==> Along(m, [tok], i, j) { AlongOne(m, tok, i, j); }
  }

  lemma OneTokenLex(s: string, b: LexBits, t: PatternToken)
    requires s != "" && PeekToken(s, 0, b) == Read(t, |s|)
    ensures Lex(s, 0, b) == Tokens([t])
  {
    hide PeekToken;
    assert Lex(s, |s|, b) == Tokens([]) && [t] + [] == [t];
  }

  function OpenParen(b: LexBits): string { if b.noBkParens then "(" else "\\(" }

  function CloseParen(b: LexBits): string { if b.noBkParens then ")" else "\\)" }

  lemma OneTokenText(s: string, b: LexBits, x: Syntax, t: PatternToken, a: Ast, tok: Token)
    requires s != "" && PeekToken(s, 0, b) == Read(t, |s|)
    requires (a == Literal(t) && LiteralOk(x, t) && tok == Character(CharOf(t))) || (t.TLeaf? && a == Leaf(t.tok) && tok == t.tok)
    ensures ReadsAlong(s, b, x, [tok])
  {
    OneTokenLex(s, b, t);
    OneTokenReads(t, x, a, tok);
    hide PeekToken, LiteralOk, CharOf, ReadsAlong, Lex, Spells, AstMatches, Along;
    ReadsAlongIs(s, b, x, a, [tok]);
  }

  /** A closing parenthesis on its own stands for itself with RE_UNMATCHED_RIGHT_PAREN_ORD, and is
      an error without. */
  lemma CloseText(b: LexBits, x: Syntax)
    ensures if x.unmatchedRightParenOrd then ReadsAlong(CloseParen(b), b, x, [Character(')' as int)]) else NoReading(CloseParen(b), b, x)
  {
    var s := CloseParen(b);
    assert PeekToken(s, 0, b) == Read(TClose, |s|);
    if x.unmatchedRightParenOrd {
      OneTokenText(s, b, x, TClose, Literal(TClose), Character(')' as int));
    } else {
      OneTokenLex(s, b, TClose);
      AtomNone([TClose], x, Beginning, true, Blank);
      NothingReads([TClose], x, false, Blank);
    }
    hide Lex, ReadsAlong, PeekToken, AtomDecided, RepeatDecided;
  }

  /** A closing brace stands for itself. */
  lemma CloseBraceText(b: LexBits, x: Syntax)
    ensures ReadsAlong(CloseBrace(b), b, x, [Character('}' as int)])
  {
    hide ReadsAlong;
    var s, t := CloseBrace(b), if b.intervals then TCloseDup else TChar('}' as int);
    assert PeekToken(s, 0, b) == Read(t, |s|);
    OneTokenText(s, b, x, t, Literal(t), Character('}' as int));
  }

  lemma PeriodText(b: LexBits, x: Syntax)
    ensures ReadsAlong(".", b, x, [Period])
  {
    hide ReadsAlong;
    OneTokenText(".", b, x, TLeaf(Period), Leaf(Period), Period);
  }

  /** The text is read in one way, which matches either character. */
  ghost predicate ReadsEither(s: string, b: LexBits, x: Syntax, c: char, d: char) {
    var l := Lex(s, 0, b);
    && l.Tokens? && (exists a :: Spells(l.tokens, x, a))
    && forall a, m: Matcher, i, j | Spells(l.tokens, x, a) ::
         AstMatches(m, a, i, j) <==> i <= j && (m(Character(c as int), i, j) || m(Character(d as int), i, j))
  }

  /** c|d matches either character, and so do the two on lines of their own with RE_NEWLINE_ALT. */
  lemma EitherText(c: char, d: char, b: LexBits, x: Syntax)
    requires Ordinary(c) && Ordinary(d)
    ensures !b.limitedOps ==> ReadsEither(if b.noBkVbar then [c, '|', d] else [c, '\\', '|', d], b, x, c, d)
    ensures b.newlineAlt ==> ReadsEither([c, '\n', d], b, x, c, d)
  {
    hide ReadsEither;
    if !b.limitedOps { EitherIs(if b.noBkVbar then [c, '|', d] else [c, '\\', '|', d], c, d, b, x); }
    if b.newlineAlt { EitherIs([c, '\n', d], c, d, b, x); }
  }

  lemma EitherIs(s: string, c: char, d: char, b: LexBits, x: Syntax)
    requires |s| > 2 && s[0] == c && s[|s| - 1] == d && Ordinary(c) && Ordinary(d)
    requires PeekToken(s, 1, b) == Read(TAlt, |s| - 2)
    ensures ReadsEither(s, b, x, c, d)
  {
    var tokens := [TChar(c as int), TAlt, TChar(d as int)];
    OrdinaryRead(s, 0, b);
    OrdinaryRead(s, |s| - 1, b);
    hide PeekToken;
    assert Lex(s, |s|, b) == Tokens([]);
    assert Lex(s, |s| - 1, b) == Tokens([TChar(d as int)]);
    assert Lex(s, 1, b) == Tokens([TAlt, TChar(d as int)]);
    assert Lex(s, 0, b) == Tokens(tokens);
    hide Lex, Spells, AstMatches;
    EitherReads(c, d, x);
    forall a | Spells(tokens, x, a) ensures a == Or(Literal(TChar(c as int)), Literal(TChar(d as int))) {
      OneReading(tokens, x, a, Or(Literal(TChar(c as int)), Literal(TChar(d as int))));
    }
  }

  lemma EitherReads(c: char, d: char, x: Syntax)
    ensures var a := Or(Literal(TChar(c as int)), Literal(TChar(d as int)));
      && Spells([TChar(c as int), TAlt, TChar(d as int)], x, a)
      && forall m: Matcher, i, j ::
           AstMatches(m, a, i, j) <==> i <= j && (m(Character(c as int), i, j) || m(Character(d as int), i, j))
  {
    var tokens, l, r := [TChar(c as int), TAlt, TChar(d as int)], Literal(TChar(c as int)), Literal(TChar(d as int));
    assert Reads(tokens, x, l, 0, true, false) && Reads(tokens, x, r, 2, true, false);
    assert Reads(tokens, x, Or(l, r), 0, true, false);
    PlainScope(l, {}, 0);
    PlainScope(r, {}, 0);
  }

  /** A parenthesized character is group 0 and matches the character. */
  lemma GroupText(c: char, b: LexBits, x: Syntax)
    requires Ordinary(c)
    ensures var s := OpenParen(b) + [c] + CloseParen(b);
      && ReadsAlong(s, b, x, [Character(c as int)])
      && Spells(Lex(s, 0, b).tokens, x, Group(0, Literal(TChar(c as int))))
  {
    var open, close := OpenParen(b), CloseParen(b);
    var s := open + [c] + close;
    var tokens := [TOpen, TChar(c as int), TClose];
    assert s[0] == open[0] && (|open| > 1 ==> s[1] == open[1]) && s[|open|] == c;
    assert s[|open| + 1] == close[0] && (|close| > 1 ==> s[|open| + 2] == close[1]);
    assert PeekToken(s, 0, b) == Read(TOpen, |open|) && PeekToken(s, |open| + 1, b) == Read(TClose, |close|);
    OrdinaryRead(s, |open|, b);
    hide PeekToken;
    assert Lex(s, |s|, b) == Tokens([]);
    assert Lex(s, |open| + 1, b) == Tokens([TClose]);
    assert Lex(s, |open|, b) == Tokens([TChar(c as int), TClose]);
    assert Lex(s, 0, b) == Tokens(tokens);
    hide Lex, ReadsAlong;
    GroupReads(c, x);
    ReadsAlongIs(s, b, x, Group(0, Literal(TChar(c as int))), [Character(c as int)]);
  }

  lemma GroupReads(c: char, x: Syntax)
    ensures var a := Group(0, Literal(TChar(c as int)));
      && Spells([TOpen, TChar(c as int), TClose], x, a)
      && forall m: Matcher, i, j :: AstMatches(m, a, i, j) <==> Along(m, [Character(c as int)], i, j)
  {
    var tokens, l := [TOpen, TChar(c as int), TClose], Literal(TChar(c as int));
    assert Reads(tokens, x, l, 1, true, true);
    assert Reads(tokens, x, Group(0, l), 0, true, false);
    PlainScope(l, {}, 1);
    forall m: Matcher, i, j ensures AstMatches(m, Group(0, l), i, j) <==> Along(m, [Character(c as int)], i, j) {
      assert AstMatches(m, l, i, j) <==> i <= j && m(Character(c as int), i, j);
      AlongOne(m, Character(c as int), i, j);
    }
  }

  ghost function GroupTokens(n: nat): (t: seq<PatternToken>)
    ensures |t| == 2 * n && forall k | 0 <= k < n :: t[2 * k] == TOpen && t[2 * k + 1] == TClose
  {
    seq(2 * n, k => if k % 2 == 0 then TOpen else TClose)
  }

  ghost function GroupsTree(n: nat): Ast
    requires n > 0
  {
    if n == 1 then EmptyGroup(0) else Then(GroupsTree(n - 1), EmptyGroup(n - 1))
  }

  lemma {:induction false} GroupsRead(tokens: seq<PatternToken>, x: Syntax, n: nat)
    requires n > 0 && GroupTokens(n) <= tokens
    ensures var a := GroupsTree(n);
      Reads(tokens, x, a, 0, true, false) && Width(a) == 2 * n && !EndsInRepeat(a) && !a.Blank? && Level(a) <= 3
    decreases n
  {
    var p := 2 * (n - 1);
    assert tokens[p] == GroupTokens(n)[p] == TOpen && tokens[p + 1] == GroupTokens(n)[p + 1] == TClose;
    assert Reads(tokens, x, EmptyGroup(n - 1), p, n == 1, false);
    if n > 1 {
      GroupsRead(tokens, x, n - 1);
      hide LiteralBraceAt, SpellsDup;
      assert TopFits(tokens, x, GroupsTree(n), 0, true, false);
    }
  }

  lemma {:induction false} GroupsNumbered(n: nat)
    requires n > 0
    ensures Numbered(GroupsTree(n), 0) && NextNumber(GroupsTree(n), 0) == n
    decreases n
  {
    if n > 1 { GroupsNumbered(n - 1); }
  }

  lemma {:induction false} GroupsScope(n: nat, k: nat)
    requires n > 0
    ensures RefsInScope(GroupsTree(n), {}) && (k in Closed(GroupsTree(n), {}) <==> k < n && k < 9)
    decreases n
  {
    hide Closed, RefsInScope;
    if n == 1 { EmptyGroupScope(Blank, 0); } else {
      GroupsScope(n - 1, k);
      EmptyGroupScope(GroupsTree(n - 1), n - 1);
    }
  }

  lemma EmptyGroupScope(l: Ast, k: nat)
    ensures RefsInScope(EmptyGroup(k), {}) && Closed(EmptyGroup(k), {}) == Nameable(k)
    ensures RefsInScope(Then(l, EmptyGroup(k)), {}) <==> RefsInScope(l, {})
    ensures Closed(Then(l, EmptyGroup(k)), {}) == Closed(l, {}) + Nameable(k)
  {
  }

  lemma RefScope(l: Ast, k: nat)
    requires RefsInScope(l, {}) && k in Closed(l, {}) && Numbered(l, 0)
    ensures RefsInScope(Then(l, Ref(k)), {}) && Numbered(Then(l, Ref(k)), 0)
  {
  }

  lemma {:induction false} GroupsMean(m: Matcher, n: nat, i: nat, j: nat)
    requires n > 0
    ensures AstMatches(m, GroupsTree(n), i, j) <==> i == j
    decreases n
  {
    if n > 1 {
      var a := GroupsTree(n);
      if AstMatches(m, a, i, j) {
        var k := ThenSplits(m, a, i, j);
        GroupsMean(m, n - 1, i, k);
      }
      if i == j {
        GroupsMean(m, n - 1, i, i);
        assert AstMatches(m, a.left, i, i) && AstMatches(m, a.right, i, i);
      }
    }
  }

  /** After n groups the reference \d is one to group d, for d from 1 to 9 and not above n. */
  lemma GroupsThenRef(n: nat, d: nat, x: Syntax)
    requires 1 <= d <= 9 && d <= n
    ensures var tokens := GroupTokens(n) + [TBackRef(d - 1)]; var a := Then(GroupsTree(n), Ref(d - 1));
      && Spells(tokens, x, a)
      && forall m: Matcher, i, j :: AstMatches(m, a, i, j) <==> i <= j && m(BackRef(d - 1), i, j)
  {
    hide Reads, GroupsTree, AstMatches, Closed, RefsInScope, Numbered, GroupTokens;
    var tokens, l := GroupTokens(n) + [TBackRef(d - 1)], GroupsTree(n);
    var a := Then(l, Ref(d - 1));
    GroupsRead(tokens, x, n);
    GroupsNumbered(n);
    GroupsScope(n, d - 1);
    RefTop(tokens, x, n, d);
    RefScope(l, d - 1);
    forall m: Matcher, i, j ensures AstMatches(m, a, i, j) <==> i <= j && m(BackRef(d - 1), i, j) { RefMatches(m, n, d, i, j); }
  }

  lemma RefTop(tokens: seq<PatternToken>, x: Syntax, n: nat, d: nat)
    requires n > 0 && d > 0 && tokens == GroupTokens(n) + [TBackRef(d - 1)]
    requires var l := GroupsTree(n);
      Reads(tokens, x, l, 0, true, false) && Width(l) == 2 * n && !EndsInRepeat(l) && !l.Blank? && Level(l) <= 3
    ensures Reads(tokens, x, Then(GroupsTree(n), Ref(d - 1)), 0, true, false)
  {
    hide GroupsTree, LiteralBraceAt, SpellsDup;
    assert Reads(tokens, x, Ref(d - 1), 2 * n, false, false);
    assert TopFits(tokens, x, Then(GroupsTree(n), Ref(d - 1)), 0, true, false);
  }

  lemma RefMatches(m: Matcher, n: nat, d: nat, i: nat, j: nat)
    requires n > 0 && d > 0
    ensures AstMatches(m, Then(GroupsTree(n), Ref(d - 1)), i, j) <==> i <= j && m(BackRef(d - 1), i, j)
  {
    var a := Then(GroupsTree(n), Ref(d - 1));
    if AstMatches(m, a, i, j) {
      var k := ThenSplits(m, a, i, j);
      GroupsMean(m, n, i, k);
    }
    if i <= j && m(BackRef(d - 1), i, j) {
      GroupsMean(m, n, i, i);
      assert AstMatches(m, a.left, i, i) && AstMatches(m, a.right, i, j);
    }
  }

  lemma RefRead(s: string, i: nat, d: nat, b: LexBits)
    requires i + 1 < |s| && s[i] == '\\' && 1 <= d <= 9 && s[i + 1] == DigitChar(d) && !b.noBkRefs
    ensures PeekToken(s, i, b) == Read(TBackRef(d - 1), 2)
  {
  }
}
