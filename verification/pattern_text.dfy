/** What patterns written as text match, in terms of their characters alone. */
module PatternTexts {
  import opened RegexTree
  import opened Patterns
  import opened Readings
  import opened Numerals
  import opened Lexer

  // ----- Spans that tokens match one after the other -----

  ghost predicate Path(m: Matcher, toks: seq<Token>, ps: seq<nat>) {
    |ps| == |toks| + 1 && forall k | 0 <= k < |toks| :: ps[k] <= ps[k + 1] && m(toks[k], ps[k], ps[k + 1])
  }

  /** The tokens match the span [i, j) one after the other. */
  ghost predicate Along(m: Matcher, toks: seq<Token>, i: nat, j: nat) {
    exists ps :: Path(m, toks, ps) && ps[0] == i && ps[|toks|] == j
  }

  lemma {:induction false} PathOrdered(m: Matcher, toks: seq<Token>, ps: seq<nat>, k: nat)
    requires Path(m, toks, ps) && k <= |toks|
    ensures ps[0] <= ps[k]
  {
    if k > 0 { PathOrdered(m, toks, ps, k - 1); }
  }

  lemma AlongNone(m: Matcher, i: nat, j: nat)
    ensures Along(m, [], i, j) <==> i == j
  {
    if i == j { assert Path(m, [], [i]); }
  }

  lemma AlongFirst(m: Matcher, tok: Token, toks: seq<Token>, i: nat, j: nat)
    ensures Along(m, [tok] + toks, i, j) <==> exists k: nat :: i <= k <= j && m(tok, i, k) && Along(m, toks, k, j)
  {
    var all := [tok] + toks;
    assert all[1..] == toks;
    if Along(m, all, i, j) {
      var ps :| Path(m, all, ps) && ps[0] == i && ps[|all|] == j;
      assert Path(m, toks, ps[1..]) by { forall k | 0 <= k < |toks| ensures all[k + 1] == toks[k] {} }
      PathOrdered(m, toks, ps[1..], |toks|);
      assert m(all[0], ps[0], ps[1]) && Along(m, toks, ps[1], j);
    }
    if k: nat :| i <= k <= j && m(tok, i, k) && Along(m, toks, k, j) {
      var ps :| Path(m, toks, ps) && ps[0] == k && ps[|toks|] == j;
      var qs := [i] + ps;
      forall l | 0 <= l < |all| ensures qs[l] <= qs[l + 1] && m(all[l], qs[l], qs[l + 1]) {
        if l > 0 { assert all[l] == toks[l - 1]; }
      }
      assert Path(m, all, qs);
    }
  }

  lemma AlongLast(m: Matcher, toks: seq<Token>, tok: Token, i: nat, j: nat)
    ensures Along(m, toks + [tok], i, j) <==> exists k: nat :: i <= k <= j && Along(m, toks, i, k) && m(tok, k, j)
  {
    var all, n := toks + [tok], |toks|;
    if Along(m, all, i, j) {
      var ps :| Path(m, all, ps) && ps[0] == i && ps[|all|] == j;
      assert Path(m, toks, ps[..n + 1]) by { forall k | 0 <= k < n ensures all[k] == toks[k] {} }
      PathOrdered(m, toks, ps[..n + 1], n);
      assert m(all[n], ps[n], ps[n + 1]) && Along(m, toks, i, ps[n]);
    }
    if k: nat :| i <= k <= j && Along(m, toks, i, k) && m(tok, k, j) {
      var ps :| Path(m, toks, ps) && ps[0] == i && ps[n] == k;
      var qs := ps + [j];
      forall l | 0 <= l < |all| ensures qs[l] <= qs[l + 1] && m(all[l], qs[l], qs[l + 1]) {
        if l < n { assert all[l] == toks[l]; }
      }
      assert Path(m, all, qs);
    }
  }

  function Times(c: char, n: nat): (s: seq<Token>)
    ensures |s| == n && forall k | 0 <= k < n :: s[k] == Character(c as int)
  {
    seq(n, k => Character(c as int))
  }

  /** The character `c`, from `lo` to `hi` times; without upper bound if `hi` is -1. */
  ghost predicate Repeats(m: Matcher, c: char, lo: nat, hi: int, i: nat, j: nat) {
    exists n: nat :: lo <= n && (hi == -1 || n <= hi) && Along(m, Times(c, n), i, j)
  }

  lemma PowerSplits(m: Matcher, a: Ast, n: nat, i: nat, j: nat) returns (k: nat)
    requires n > 0 && AstPower(m, a, n, i, j)
    ensures i <= k <= j && AstMatches(m, a, i, k) && AstPower(m, a, n - 1, k, j)
  {
    k :| i <= k <= j && AstMatches(m, a, i, k) && AstPower(m, a, n - 1, k, j);
  }

  lemma {:induction false} PowerAlong(m: Matcher, a: Ast, c: char, n: nat, i: nat, j: nat)
    requires forall i: nat, j: nat :: AstMatches(m, a, i, j) <==> i <= j && m(Character(c as int), i, j)
    ensures AstPower(m, a, n, i, j) <==> Along(m, Times(c, n), i, j)
    decreases n
  {
    if n == 0 {
      AlongNone(m, i, j);
      assert Times(c, 0) == [];
    } else {
      var n1 := n - 1;
      var rest := Times(c, n1);
      assert Times(c, n) == [Character(c as int)] + rest;
      AlongFirst(m, Character(c as int), rest, i, j);
      forall k: nat | i <= k <= j ensures AstPower(m, a, n1, k, j) <==> Along(m, rest, k, j) { PowerAlong(m, a, c, n1, k, j); }
      hide Along;
      if AstPower(m, a, n, i, j) {
        var k := PowerSplits(m, a, n, i, j);
        assert m(Character(c as int), i, k) && Along(m, rest, k, j);
      }
      if Along(m, Times(c, n), i, j) {
        var k: nat :| i <= k <= j && m(Character(c as int), i, k) && Along(m, rest, k, j);
        assert AstMatches(m, a, i, k) && AstPower(m, a, n1, k, j);
      }
    }
  }

  // ----- One token -----

  /** Wherever a token stands for its character, that is the character it was spelled with,
      an operator included. */
  lemma LiteralChar(s: string, i: nat, b: LexBits, tokens: seq<PatternToken>, x: Syntax, a: Ast, p: nat, first: bool, nested: bool,
                    m: Matcher, k: nat, l: nat)
    requires i < |s| && Reads(tokens, x, a, p, first, nested) && (a.Literal? || a.LeftBrace?)
    requires var t := PeekToken(s, i, b); t.Read? && tokens[p] == t.t
    ensures AstMatches(m, a, k, l) <==> k <= l && m(Character(if s[i] == '\\' then s[i + 1] as int else s[i] as int), k, l)
  {
    assert TopFits(tokens, x, a, p, first, nested);
    hide Reads, LiteralBraceAt;
  }

  // ----- Characters that are no operators -----

  predicate Ordinary(c: char) { c !in "\\^$\n|*+?{}()[." }

  predicate OrdinaryIn(s: string, i: nat, j: nat)
    requires j <= |s|
  {
    forall k | i <= k < j :: Ordinary(s[k])
  }

  lemma OrdinaryRead(s: string, i: nat, b: LexBits)
    requires i < |s| && Ordinary(s[i])
    ensures PeekToken(s, i, b) == Read(TChar(s[i] as int), 1)
  {
  }

  /** A stretch of ordinary characters is read character by character. */
  lemma {:induction false} OrdinaryLex(s: string, i: nat, j: nat, b: LexBits)
    requires i <= j <= |s| && OrdinaryIn(s, i, j)
    ensures var rest := Lex(s, j, b);
      Lex(s, i, b) == if rest.Outside? then Outside else Tokens(CharTokens(s[i..j]) + rest.tokens)
    decreases j - i
  {
    hide PeekToken, Ordinary;
    if i < j {
      OrdinaryRead(s, i, b);
      OrdinaryLex(s, i + 1, j, b);
      var t := CharTokens(s[i + 1..j]);
      assert CharTokens(s[i..j]) == [TChar(s[i] as int)] + t;
      var rest := Lex(s, j, b);
      if rest.Tokens? { assert [TChar(s[i] as int)] + (t + rest.tokens) == [TChar(s[i] as int)] + t + rest.tokens; }
    } else {
      assert CharTokens(s[i..j]) == [];
    }
  }

  /** The syntax tree of a text without operators. */
  ghost function PlainTree(s: string): Ast
    requires s != ""
  {
    var t := Literal(TChar(s[|s| - 1] as int));
    if |s| == 1 then t else Then(PlainTree(s[..|s| - 1]), t)
  }

  function TextTokens(s: string): (t: seq<Token>)
    ensures |t| == |s| && forall k | 0 <= k < |s| :: t[k] == Character(s[k] as int)
  {
    seq(|s|, k requires 0 <= k < |s| => Character(s[k] as int))
  }

  lemma {:induction false} PlainMeans(m: Matcher, s: string, i: nat, j: nat)
    requires s != ""
    ensures AstMatches(m, PlainTree(s), i, j) <==> Along(m, TextTokens(s), i, j)
    decreases |s|
  {
    var r, c := s[..|s| - 1], s[|s| - 1];
    var tok := Character(c as int);
    assert TextTokens(s) == TextTokens(r) + [tok];
    AlongLast(m, TextTokens(r), tok, i, j);
    if r == "" {
      forall k: nat ensures Along(m, TextTokens(r), i, k) <==> i == k { AlongNone(m, i, k); }
    } else {
      forall k: nat ensures AstMatches(m, PlainTree(r), i, k) <==> Along(m, TextTokens(r), i, k) { PlainMeans(m, r, i, k); }
      forall k: nat ensures AstMatches(m, Literal(TChar(c as int)), k, j) <==> k <= j && m(tok, k, j) {}
      assert PlainTree(s) == Then(PlainTree(r), Literal(TChar(c as int)));
      hide Along, PlainTree;
    }
  }

  lemma {:induction false} PlainReads(s: string, x: Syntax, k: nat)
    requires 0 < k <= |s|
    ensures var a := PlainTree(s[..k]);
      Reads(CharTokens(s), x, a, 0, true, false) && Width(a) == k && !EndsInRepeat(a) && !a.Blank? && Level(a) <= 3
    decreases k
  {
    var tokens, t := CharTokens(s), TChar(s[k - 1] as int);
    assert s[..k][k - 1] == s[k - 1];
    hide SpellsDup, LiteralBraceAt;
    assert Reads(tokens, x, Literal(t), k - 1, k == 1, false);
    if k > 1 {
      PlainReads(s, x, k - 1);
      assert s[..k][..k - 1] == s[..k - 1];
      LiteralFollows(tokens, x, PlainTree(s[..k - 1]), t, k - 1);
      assert PlainTree(s[..k]) == Then(PlainTree(s[..k - 1]), Literal(t));
      hide Reads, PlainTree;
    }
  }

  lemma LiteralFollows(tokens: seq<PatternToken>, x: Syntax, l: Ast, t: PatternToken, p: nat)
    requires Reads(tokens, x, l, 0, true, false) && Width(l) == p && !EndsInRepeat(l) && !l.Blank? && Level(l) <= 3
    requires Reads(tokens, x, Literal(t), p, false, false)
    ensures var a := Then(l, Literal(t)); Reads(tokens, x, a, 0, true, false) && Width(a) == p + 1 && !EndsInRepeat(a)
  {
    hide SpellsDup, LiteralBraceAt;
    assert TopFits(tokens, x, Then(l, Literal(t)), 0, true, false);
  }

  lemma {:induction false} PlainGroupless(s: string)
    requires s != ""
    ensures var a := PlainTree(s);
      GroupsIn(a) == {} && RefsInScope(a, {}) && Numbered(a, 0) && Closed(a, {}) == {} && NextNumber(a, 0) == 0
    decreases |s|
  {
    if |s| > 1 { PlainGroupless(s[..|s| - 1]); }
  }

  /** A text of ordinary characters is read as itself and matches its characters one after the
      other. */
  lemma PlainText(s: string, b: LexBits, x: Syntax)
    requires s != "" && OrdinaryIn(s, 0, |s|)
    ensures Lex(s, 0, b) == Tokens(CharTokens(s)) && Spells(CharTokens(s), x, PlainTree(s))
    ensures forall m: Matcher, i, j :: AstMatches(m, PlainTree(s), i, j) <==> Along(m, TextTokens(s), i, j)
  {
    assert s[0..|s|] == s == s[..|s|];
    OrdinaryLex(s, 0, |s|, b);
    PlainReads(s, x, |s|);
    PlainGroupless(s);
    forall m: Matcher, i, j ensures AstMatches(m, PlainTree(s), i, j) <==> Along(m, TextTokens(s), i, j) { PlainMeans(m, s, i, j); }
    hide Reads, Along, AstMatches;
  }

  // ----- A character and an operator -----

  /** The text is read in one way, which matches the character `c` from `lo` to `hi` times. */
  ghost predicate RepeatText(s: string, b: LexBits, x: Syntax, c: char, lo: nat, hi: int) {
    var l := Lex(s, 0, b);
    && l.Tokens? && (exists a :: Spells(l.tokens, x, a))
    && forall a, m: Matcher, i, j | Spells(l.tokens, x, a) :: AstMatches(m, a, i, j) <==> Repeats(m, c, lo, hi, i, j)
  }

  lemma RepeatSpells(c: char, op: seq<PatternToken>, lo: nat, hi: int, x: Syntax)
    requires SpellsDup(op, lo, hi)
    ensures var t := TChar(c as int); Spells([t] + op, x, Repeat(Literal(t), lo, hi, op))
  {
    hide SpellsDup;
    var t := TChar(c as int);
    var tokens := [t] + op;
    assert Reads(tokens, x, Literal(t), 0, true, false);
    var a := Repeat(Literal(t), lo, hi, op);
    assert tokens[1..] == op == tokens[1..1 + |op|];
    assert TopFits(tokens, x, a, 0, true, false);
    assert RefsInScope(a, {}) && Numbered(a, 0) by { assert RefsInScope(a.body, {}) && Numbered(a.body, 0); }
  }

  lemma RepeatMeans(m: Matcher, c: char, lo: nat, hi: int, op: seq<PatternToken>, i: nat, j: nat)
    ensures AstMatches(m, Repeat(Literal(TChar(c as int)), lo, hi, op), i, j) <==> Repeats(m, c, lo, hi, i, j)
  {
    var a := Literal(TChar(c as int));
    forall i: nat, j: nat ensures AstMatches(m, a, i, j) <==> i <= j && m(Character(c as int), i, j) {}
    forall n: nat ensures AstPower(m, a, n, i, j) <==> Along(m, Times(c, n), i, j) { PowerAlong(m, a, c, n, i, j); }
    if Repeats(m, c, lo, hi, i, j) {
      var n: nat :| lo <= n && (hi == -1 || n <= hi) && Along(m, Times(c, n), i, j);
      var ps :| Path(m, Times(c, n), ps) && ps[0] == i && ps[n] == j;
      PathOrdered(m, Times(c, n), ps, n);
      assert AstPower(m, a, n, i, j);
    }
    if AstMatches(m, Repeat(a, lo, hi, op), i, j) {
      var n := RepeatCount(m, Repeat(a, lo, hi, op), i, j);
      assert Along(m, Times(c, n), i, j);
    }
  }

  lemma RepeatCount(m: Matcher, a: Ast, i: nat, j: nat) returns (n: nat)
    requires a.Repeat? && AstMatches(m, a, i, j)
    ensures a.lo <= n && (a.hi == -1 || n <= a.hi) && AstPower(m, a.body, n, i, j)
  {
    n :| a.lo <= n && (a.hi == -1 || n <= a.hi) && AstPower(m, a.body, n, i, j);
  }

  lemma RepeatIs(s: string, b: LexBits, x: Syntax, c: char, op: seq<PatternToken>, lo: nat, hi: int)
    requires Lex(s, 0, b) == Tokens([TChar(c as int)] + op) && SpellsDup(op, lo, hi)
    ensures RepeatText(s, b, x, c, lo, hi)
  {
    hide Lex, SpellsDup, Spells, AstMatches, Repeats;
    var tokens := [TChar(c as int)] + op;
    var r := Repeat(Literal(TChar(c as int)), lo, hi, op);
    RepeatSpells(c, op, lo, hi, x);
    forall a, m: Matcher, i, j | Spells(tokens, x, a) ensures AstMatches(m, a, i, j) <==> Repeats(m, c, lo, hi, i, j) {
      OneReading(tokens, x, a, r);
      RepeatMeans(m, c, lo, hi, op, i, j);
    }
  }

  /** The operators of one character, with the backslash that the syntax asks for. */
  lemma RepeatedText(c: char, b: LexBits, x: Syntax)
    requires Ordinary(c)
    ensures RepeatText([c, '*'], b, x, c, 0, -1)
    ensures !b.limitedOps ==> RepeatText(if b.bkPlusQm then [c, '\\', '+'] else [c, '+'], b, x, c, 1, -1)
    ensures !b.limitedOps ==> RepeatText(if b.bkPlusQm then [c, '\\', '?'] else [c, '?'], b, x, c, 0, 1)
  {
    hide RepeatText, SpellsDup;
    OperatorReads(0, -1);
    OperatorReads(1, -1);
    OperatorReads(0, 1);
    OperatorLex(c, "*", TStar, b);
    RepeatIs([c] + "*", b, x, c, [TStar], 0, -1);
    if !b.limitedOps {
      var plus, question := if b.bkPlusQm then "\\+" else "+", if b.bkPlusQm then "\\?" else "?";
      OperatorLex(c, plus, TPlus, b);
      RepeatIs([c] + plus, b, x, c, [TPlus], 1, -1);
      OperatorLex(c, question, TQuestion, b);
      RepeatIs([c] + question, b, x, c, [TQuestion], 0, 1);
      assert [c] + "\\+" == [c, '\\', '+'] && [c] + "\\?" == [c, '\\', '?'];
    }
    assert [c] + "*" == [c, '*'] && [c] + "+" == [c, '+'] && [c] + "?" == [c, '?'];
  }

  lemma OperatorLex(c: char, op: string, t: PatternToken, b: LexBits)
    requires Ordinary(c) && 1 <= |op| <= 2 && PeekToken([c] + op, 1, b) == Read(t, |op|)
    ensures Lex([c] + op, 0, b) == Tokens([TChar(c as int)] + [t])
  {
    var s := [c] + op;
    OrdinaryRead(s, 0, b);
    hide PeekToken;
    assert Lex(s, |s|, b) == Tokens([]);
    assert Lex(s, 1, b) == Tokens([t] + []);
  }

  // ----- A character and an interval -----

  function OpenBrace(b: LexBits): string { if b.noBkBraces then "{" else "\\{" }

  function CloseBrace(b: LexBits): string { if b.noBkBraces then "}" else "\\}" }

  predicate StandsAt(s: string, i: nat, op: string) { i + |op| <= |s| && s[i..i + |op|] == op }

  lemma PeekAt(s: string, i: nat, b: LexBits, op: string)
    requires StandsAt(s, i, op) && 1 <= |op| <= 2 && (|op| == 2 <==> op[0] == '\\') && op[0] != '^' && op[0] != '$'
    ensures PeekToken(s, i, b) == if |op| == 2 then Escaped(op[1], b) else Unescaped(op[0], b)
  {
    hide Escaped, Unescaped;
    assert s[i] == s[i..i + |op|][0] && (|op| == 2 ==> s[i + 1] == s[i..i + |op|][1]);
  }

  lemma BraceRead(s: string, i: nat, b: LexBits)
    requires b.intervals
    ensures 1 <= |OpenBrace(b)| <= 2 && 1 <= |CloseBrace(b)| <= 2
    ensures StandsAt(s, i, OpenBrace(b)) ==> PeekToken(s, i, b) == Read(TOpenDup, |OpenBrace(b)|)
    ensures StandsAt(s, i, CloseBrace(b)) ==> PeekToken(s, i, b) == Read(TCloseDup, |CloseBrace(b)|)
  {
    hide StandsAt, PeekToken;
    if StandsAt(s, i, OpenBrace(b)) { PeekAt(s, i, b, OpenBrace(b)); }
    if StandsAt(s, i, CloseBrace(b)) { PeekAt(s, i, b, CloseBrace(b)); }
  }

  lemma BracedSlices(c: char, open: string, inner: string, close: string)
    requires 1 <= |open| <= 2 && 1 <= |close| <= 2
    ensures var s := [c] + open + inner + close; var p := 1 + |open|; var q := p + |inner|;
      && |s| == q + |close| && s[0] == c && StandsAt(s, 1, open) && StandsAt(s, q, close)
      && s[p..q] == inner && (OrdinaryIn(inner, 0, |inner|) ==> OrdinaryIn(s, p, q))
  {
    hide Ordinary;
    var s, p := [c] + open + inner + close, 1 + |open|;
    assert forall k | 0 <= k < |inner| :: s[k + p] == inner[k];
    if OrdinaryIn(inner, 0, |inner|) {
      forall k | p <= k < p + |inner| ensures Ordinary(s[k]) { assert s[k] == inner[k - p]; }
    }
  }

  lemma IntervalLex(c: char, inner: string, b: LexBits)
    requires Ordinary(c) && OrdinaryIn(inner, 0, |inner|) && b.intervals
    ensures Lex([c] + OpenBrace(b) + inner + CloseBrace(b), 0, b) ==
      Tokens([TChar(c as int)] + ([TOpenDup] + CharTokens(inner) + [TCloseDup]))
  {
    hide PeekToken, Ordinary, OpenBrace, CloseBrace, CharTokens;
    var open, close := OpenBrace(b), CloseBrace(b);
    var s := [c] + open + inner + close;
    var p := 1 + |open|;
    var q := p + |inner|;
    BraceRead(s, 1, b);
    BraceRead(s, q, b);
    BracedSlices(c, open, inner, close);
    OrdinaryRead(s, 0, b);
    OrdinaryLex(s, p, q, b);
    LexEnd(s, q, b, close);
    LexFrom(s, 1, b, TOpenDup, |open|);
    LexFrom(s, 0, b, TChar(c as int), 1);
    assert [TOpenDup] + (CharTokens(inner) + [TCloseDup]) == [TOpenDup] + CharTokens(inner) + [TCloseDup];
  }

  lemma LexFrom(s: string, i: nat, b: LexBits, t: PatternToken, length: nat)
    requires i < |s| && PeekToken(s, i, b) == Read(t, length) && length > 0
    ensures Lex(s, i + length, b).Tokens? ==> Lex(s, i, b) == Tokens([t] + Lex(s, i + length, b).tokens)
  {
    hide PeekToken;
  }

  lemma LexEnd(s: string, i: nat, b: LexBits, close: string)
    requires i + |close| == |s| && close != "" && PeekToken(s, i, b) == Read(TCloseDup, |close|)
    ensures Lex(s, i, b) == Tokens([TCloseDup])
  {
    hide PeekToken;
    LexFrom(s, i, b, TCloseDup, |close|);
    assert Lex(s, |s|, b) == Tokens([]) && [TCloseDup] + [] == [TCloseDup];
  }

  lemma {:induction false} NumeralOrdinary(n: nat)
    ensures OrdinaryIn(Numeral(n), 0, |Numeral(n)|)
    decreases n
  {
    if n >= 10 { NumeralOrdinary(n / 10); }
  }

  /** For n up to 0x7fff, c{n} matches the character exactly n times. */
  lemma ExactText(c: char, n: nat, b: LexBits, x: Syntax)
    requires Ordinary(c) && b.intervals && n <= 0x7fff
    ensures RepeatText([c] + OpenBrace(b) + Numeral(n) + CloseBrace(b), b, x, c, n, n)
  {
    hide RepeatText, SpellsDup, Lex, Ordinary;
    NumeralOrdinary(n);
    IntervalLex(c, Numeral(n), b);
    ExactReads(n, n, n);
    RepeatIs([c] + OpenBrace(b) + Numeral(n) + CloseBrace(b), b, x, c, [TOpenDup] + CharTokens(Numeral(n)) + [TCloseDup], n, n);
  }

  lemma InnerRange(v: int, w: int)
    requires v >= -1 && w >= -1
    ensures var inner := Bound(v) + "," + Bound(w);
      && OrdinaryIn(inner, 0, |inner|)
      && [TOpenDup] + CharTokens(inner) + [TCloseDup] ==
           [TOpenDup] + CharTokens(Bound(v)) + [TChar(',' as int)] + CharTokens(Bound(w)) + [TCloseDup]
  {
    if v >= 0 { NumeralOrdinary(v); }
    if w >= 0 { NumeralOrdinary(w); }
    hide Ordinary, Bound, CharTokens;
    CommaBetween(Bound(v), Bound(w));
  }

  lemma CommaBetween(a: string, b: string)
    requires OrdinaryIn(a, 0, |a|) && OrdinaryIn(b, 0, |b|)
    ensures var s := a + "," + b;
      && OrdinaryIn(s, 0, |s|)
      && [TOpenDup] + CharTokens(s) + [TCloseDup] ==
           [TOpenDup] + CharTokens(a) + [TChar(',' as int)] + CharTokens(b) + [TCloseDup]
  {
    var s := a + "," + b;
    assert Ordinary(',');
    hide Ordinary;
    forall k | 0 <= k < |s| ensures Ordinary(s[k]) {
      assert s[k] == if k < |a| then a[k] else if k == |a| then ',' else b[k - |a| - 1];
    }
    assert CharTokens(s) == CharTokens(a) + [TChar(',' as int)] + CharTokens(b);
  }

  /** c{v,w} matches it from v to w times; a missing v counts as 0, a missing w as no bound. */
  lemma RangeText(c: char, v: int, w: int, b: LexBits, x: Syntax)
    requires Ordinary(c) && b.intervals && -1 <= v <= 0x7fff && -1 <= w <= 0x7fff && (w == -1 || v <= w)
    ensures RepeatText([c] + OpenBrace(b) + (Bound(v) + "," + Bound(w)) + CloseBrace(b), b, x, c, if v == -1 then 0 else v, w)
  {
    hide RepeatText, SpellsDup, Lex, Ordinary, CharTokens, Bound, OpenBrace, CloseBrace;
    var lo, inner := if v == -1 then 0 else v, Bound(v) + "," + Bound(w);
    InnerRange(v, w);
    IntervalLex(c, inner, b);
    RangeReads(v, w, lo, w);
    var op := [TOpenDup] + CharTokens(Bound(v)) + [TChar(',' as int)] + CharTokens(Bound(w)) + [TCloseDup];
    RepeatIs([c] + OpenBrace(b) + inner + CloseBrace(b), b, x, c, op, lo, w);
  }
}
