/** What the automaton of a pattern written as text accepts. */
module CompiledTexts {
  import opened RegexTree
  import opened Patterns
  import opened Readings
  import opened Numerals
  import opened Lexer
  import opened PatternTexts
  import opened GroupPasses
  import opened NfaPasses
  import opened NfaLanguage
  import opened Shapes
  import Compile

  lemma {:induction false} GrouplessAgrees(m: Matcher, t: Tree)
    requires Groups(t) == {}
    ensures AgreesOnNested(m, t)
  {
    if t.Node? {
      GroupsOf(t);
      GrouplessAgrees(m, t.left);
      GrouplessAgrees(m, t.right);
    }
  }

  lemma GrouplessAccepts(tokens: seq<PatternToken>, x: Syntax, a: Ast, n: Nfa, start: int, m: Matcher, p: nat, q: nat)
    requires TokensOk(tokens) && Spells(tokens, x, a) && GroupsIn(a) == {} && Compile.Recognizes(n, start, a)
    ensures Accepts(n, m, start, p, q) <==> AstMatches(m, a, p, q)
  {
    hide Accepts, AstMatches, Spells, Whole, LeftGroups, GroupsIn, Groups;
    Compile.TreeOfPattern(tokens, x, a);
    LeftIn(a);
    GrouplessAgrees(m, Whole(a));
  }

  /** The automaton of a single token that stands for its character accepts exactly the spans
      that match this character. */
  lemma LiteralCompiled(s: string, b: LexBits, x: Syntax, a: Ast, n: Nfa, start: int, m: Matcher, p: nat, q: nat)
    requires s != "" && PeekToken(s, 0, b).Read? && PeekToken(s, 0, b).length == |s|
    requires Spells([PeekToken(s, 0, b).t], x, a) && a.Literal? && Compile.Recognizes(n, start, a)
    ensures Accepts(n, m, start, p, q) <==> p <= q && m(Character(if s[0] == '\\' then s[1] as int else s[0] as int), p, q)
  {
    var tokens := [PeekToken(s, 0, b).t];
    assert TokensOk(tokens);
    LiteralChar(s, 0, b, tokens, x, a, 0, true, false, m, p, q);
    hide Accepts, AstMatches, PeekToken, Compile.Recognizes;
    GrouplessAccepts(tokens, x, a, n, start, m, p, q);
  }

  /** The automaton of a text without operators accepts exactly its characters, one after the
      other. */
  lemma PlainCompiled(s: string, b: LexBits, x: Syntax, a: Ast, n: Nfa, start: int, m: Matcher, p: nat, q: nat)
    requires s != "" && OrdinaryIn(s, 0, |s|) && Spells(CharTokens(s), x, a) && Compile.Recognizes(n, start, a)
    ensures Accepts(n, m, start, p, q) <==> Along(m, TextTokens(s), p, q)
  {
    hide Accepts, AstMatches, Spells, Along, Compile.Recognizes, Lex;
    PlainText(s, b, x);
    OneReading(CharTokens(s), x, a, PlainTree(s));
    PlainGroupless(s);
    GrouplessAccepts(CharTokens(s), x, a, n, start, m, p, q);
  }

  /** The automaton of c{n}, under any syntax, accepts exactly n times the character. */
  lemma ExactCompiled(c: char, k: nat, b: LexBits, x: Syntax, a: Ast, n: Nfa, start: int, m: Matcher, p: nat, q: nat)
    requires Ordinary(c) && b.intervals && k <= 0x7fff
    requires var l := Lex([c] + OpenBrace(b) + Numeral(k) + CloseBrace(b), 0, b);
      l.Tokens? && Spells(l.tokens, x, a) && Compile.Recognizes(n, start, a)
    ensures Accepts(n, m, start, p, q) <==> Along(m, Times(c, k), p, q)
  {
    hide Accepts, AstMatches, Spells, Along, Compile.Recognizes, Lex, SpellsDup, OpenBrace, CloseBrace;
    var op := [TOpenDup] + CharTokens(Numeral(k)) + [TCloseDup];
    var s := [c] + OpenBrace(b) + Numeral(k) + CloseBrace(b);
    NumeralOrdinary(k);
    IntervalLex(c, Numeral(k), b);
    ExactReads(k, k, k);
    RepeatSpells(c, op, k, k, x);
    var r := Repeat(Literal(TChar(c as int)), k, k, op);
    OneReading([TChar(c as int)] + op, x, a, r);
    assert GroupsIn(r) == {} by { assert GroupsIn(r.body) == {}; }
    LexOk(s, 0, b);
    GrouplessAccepts([TChar(c as int)] + op, x, a, n, start, m, p, q);
    RepeatMeans(m, c, k, k, op, p, q);
  }
}
