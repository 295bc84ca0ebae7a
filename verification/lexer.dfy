/** peek_token: from the characters of a pattern to its tokens. */
module Lexer {
  import opened RegexTree
  import opened Patterns

  /** The syntax bits that decide what is an operator. */
  datatype LexBits = LexBits(
    newlineAlt: bool, limitedOps: bool, noBkVbar: bool, noBkRefs: bool, noGnuOps: bool, noBkParens: bool,
    bkPlusQm: bool, intervals: bool, noBkBraces: bool, contextIndepAnchors: bool, caretAnchorsHere: bool)

  /** A token and how many characters it takes up; `Other` is an anchor, a character class, the
      start of a bracket expression or a backslash at the end. */
  datatype Peek = Read(t: PatternToken, length: nat) | Other(length: nat)

  function PeekToken(s: string, i: nat, b: LexBits): Peek
    decreases |s| - i
  {
    if i >= |s| then Read(TEnd, 0)
    else if s[i] == '\\' then
      if i + 1 >= |s| then Other(1) else Escaped(s[i + 1], b)
    else if s[i] == '^' then
      if !b.contextIndepAnchors && !b.caretAnchorsHere && i != 0 && (!b.newlineAlt || s[i - 1] != '\n')
      then Read(TChar('^' as int), 1) else Other(1)
    else if s[i] == '$' then
      if b.contextIndepAnchors || i + 1 == |s| then Other(1)
      else
        var next := PeekToken(s, i + 1, b);
        if next.Read? && (next.t.TAlt? || next.t.TClose?) then Other(1) else Read(TChar('$' as int), 1)
    else Unescaped(s[i], b)
  }

  function Unescaped(c: char, b: LexBits): Peek {
    if c == '\n' && b.newlineAlt then Read(TAlt, 1)
    else if c == '|' && !b.limitedOps && b.noBkVbar then Read(TAlt, 1)
    else if c == '*' then Read(TStar, 1)
    else if c == '+' && !b.limitedOps && !b.bkPlusQm then Read(TPlus, 1)
    else if c == '?' && !b.limitedOps && !b.bkPlusQm then Read(TQuestion, 1)
    else if c == '{' && b.intervals && b.noBkBraces then Read(TOpenDup, 1)
    else if c == '}' && b.intervals && b.noBkBraces then Read(TCloseDup, 1)
    else if c == '(' && b.noBkParens then Read(TOpen, 1)
    else if c == ')' && b.noBkParens then Read(TClose, 1)
    else if c == '[' then Other(1)
    else if c == '.' then Read(TLeaf(Period), 1)
    else Read(TChar(c as int), 1)
  }

  function Escaped(c: char, b: LexBits): Peek {
    if c == '|' && !b.limitedOps && !b.noBkVbar then Read(TAlt, 2)
    else if '1' <= c <= '9' && !b.noBkRefs then Read(TBackRef(c as int - '1' as int), 2)
    else if c in {'<', '>', 'b', 'B', 'w', 'W', 's', 'S', '`', '\''} && !b.noGnuOps then Other(2)
    else if c == '(' && !b.noBkParens then Read(TOpen, 2)
    else if c == ')' && !b.noBkParens then Read(TClose, 2)
    else if c == '+' && !b.limitedOps && b.bkPlusQm then Read(TPlus, 2)
    else if c == '?' && !b.limitedOps && b.bkPlusQm then Read(TQuestion, 2)
    else if c == '{' && b.intervals && !b.noBkBraces then Read(TOpenDup, 2)
    else if c == '}' && b.intervals && !b.noBkBraces then Read(TCloseDup, 2)
    else Read(TChar(c as int), 2)
  }

  datatype Lexed = Tokens(tokens: seq<PatternToken>) | Outside

  /** All tokens from character `i` on, unless one of them is an `Other`. */
  function Lex(s: string, i: nat, b: LexBits): Lexed
    decreases |s| - i
  {
    if i >= |s| then Tokens([])
    else
      var p := PeekToken(s, i, b);
      if p.Other? || p.length == 0 then Outside
      else
        var rest := Lex(s, i + p.length, b);
        if rest.Outside? then Outside else Tokens([p.t] + rest.tokens)
  }

  lemma {:induction false} LexOk(s: string, i: nat, b: LexBits)
    ensures var l := Lex(s, i, b); l.Tokens? ==> TokensOk(l.tokens)
    decreases |s| - i
  {
    if i < |s| {
      var p := PeekToken(s, i, b);
      if p.Read? && p.length > 0 { LexOk(s, i + p.length, b); }
    }
  }
}
