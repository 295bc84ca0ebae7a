/** Which syntax tree a pattern has: the grammar over token positions, that no two trees read
    the same tokens, and how far a pattern without a tree can be read. */
module Readings {
  import opened Patterns

  /** A place in the pattern: the tokens before it, the nameable groups closed there, and the
      number of groups opened. */
  datatype Place = Place(pos: nat, closed: set<nat>, groups: nat)

  ghost function After(a: Ast, s: Place): Place {
    Place(s.pos + Width(a), Closed(a, s.closed), NextNumber(a, s.groups))
  }

  /** The places where an alternative and a group's body start. */
  ghost function NextBranch(l: Ast, s: Place): Place {
    Place(s.pos + Width(l) + 1, s.closed, NextNumber(l, s.groups))
  }

  ghost function InGroupAt(s: Place): Place { Place(s.pos + 1, s.closed, s.groups + 1) }

  ghost function Passing(s: Place): Place { Place(s.pos + 1, s.closed, s.groups) }

  predicate EndsBranch(t: PatternToken, nested: bool) { t.TAlt? || t.TEnd? || (nested && t.TClose?) }

  predicate IsStarOrBrace(t: PatternToken) { t.TStar? || t.TOpenDup? }

  /** Operators may be passed over where there is nothing to apply them to. */
  predicate PassedOver(x: Syntax, t: PatternToken) {
    IsDupToken(t) && x.contextIndepOps && !x.contextInvalidOps && !(t.TOpenDup? && x.contextInvalidDup)
  }

  /** What the top of `a` says about the tokens from position `p` on. In a `first` place there
      is nothing to the left that an operator could apply to, and in a `nested` place a closing
      parenthesis closes a group. Repetition binds before juxtaposition and juxtaposition
      before alternation, the last two to the left. An operator is one wherever there is
      something to apply it to, a repetition has the bounds its spelling says, and a brace
      stands for itself only where what follows it does not look like an interval. */
  ghost predicate TopFits(tokens: seq<PatternToken>, x: Syntax, a: Ast, p: nat, first: bool, nested: bool) {
    p + Width(a) <= |tokens| &&
    match a
    case Or(l, r) => Level(r) <= 3 && tokens[p + Width(l)] == TAlt
    case Then(l, r) =>
      && Level(l) <= 3 && Level(r) <= 1 && !l.Blank? && !r.Blank?
      && (x.contextInvalidDup && EndsInRepeat(l) ==> !TokenAt(tokens, p + Width(l)).TOpenDup?)
    case Repeat(b, lo, hi, s) =>
      && Level(b) <= 1 && !b.Blank? && tokens[p + Width(b)..p + Width(a)] == s && SpellsDup(s, lo, hi)
      && (x.contextInvalidDup && b.Repeat? ==> !IsStarOrBrace(TokenAt(tokens, p + Width(b))))
    case Skip(t, b) =>
      && first && tokens[p] == t && PassedOver(x, t) && Level(b) <= 2
      && (b.Blank? ==> EndsBranch(TokenAt(tokens, p + 1), false))
    case Blank => true
    case Literal(t) => tokens[p] == t && LiteralOk(x, t) && (IsDupToken(t) ==> first) && (t.TClose? ==> !nested)
    case LeftBrace => !first && tokens[p] == TOpenDup && x.invalidIntervalOrd && LiteralBraceAt(tokens, p)
    case Leaf(tok) => tokens[p] == TLeaf(tok)
    case Group(_, b) => !b.Blank? && tokens[p] == TOpen && tokens[p + 1 + Width(b)] == TClose
    case EmptyGroup(_) => tokens[p] == TOpen && tokens[p + 1] == TClose
    case Ref(k) => tokens[p] == TBackRef(k)
  }

  /** The tokens from position `p` on read as `a`. */
  ghost predicate Reads(tokens: seq<PatternToken>, x: Syntax, a: Ast, p: nat, first: bool, nested: bool) {
    && TopFits(tokens, x, a, p, first, nested)
    && match a
       case Or(l, r) => Reads(tokens, x, l, p, true, nested) && Reads(tokens, x, r, p + Width(l) + 1, true, nested)
       case Then(l, r) => Reads(tokens, x, l, p, first, nested) && Reads(tokens, x, r, p + Width(l), false, nested)
       case Repeat(b, _, _, _) => Reads(tokens, x, b, p, first, nested)
       case Skip(_, b) => Reads(tokens, x, b, p + 1, true, false)
       case Group(_, b) => Reads(tokens, x, b, p + 1, true, true)
       case _ => true
  }

  /** The last thing in it is a repetition. */
  ghost predicate EndsInRepeat(a: Ast) {
    match a
    case Then(_, r) => EndsInRepeat(r)
    case Skip(_, b) => EndsInRepeat(b)
    case Repeat(_, _, _, _) => true
    case _ => false
  }

  /** From place `s` on the pattern reads as `a`, with groups numbered in order and
      back-references in scope. */
  ghost predicate Fits(tokens: seq<PatternToken>, x: Syntax, a: Ast, s: Place, first: bool, nested: bool) {
    Reads(tokens, x, a, s.pos, first, nested) && RefsInScope(a, s.closed) && Numbered(a, s.groups)
  }

  const Beginning := Place(0, {}, 0)

  /** `a` is a syntax tree of the whole pattern. */
  ghost predicate Spells(tokens: seq<PatternToken>, x: Syntax, a: Ast) {
    Fits(tokens, x, a, Beginning, true, false) && Width(a) == |tokens|
  }

  lemma CutPair(tokens: seq<PatternToken>, p: nat, m: nat, q: nat)
    requires p <= m <= q <= |tokens|
    ensures tokens[p..q] == tokens[p..m] + tokens[m..q]
  {
  }

  lemma CutBar(tokens: seq<PatternToken>, p: nat, m: nat, q: nat)
    requires p <= m < q <= |tokens|
    ensures tokens[p..q] == tokens[p..m] + [tokens[m]] + tokens[m + 1..q]
  {
  }

  lemma CutFirst(tokens: seq<PatternToken>, p: nat, q: nat)
    requires p < q <= |tokens|
    ensures tokens[p..q] == [tokens[p]] + tokens[p + 1..q]
    ensures q == p + 1 ==> tokens[p..q] == [tokens[p]]
    ensures q == p + 2 ==> tokens[p..q] == [tokens[p], tokens[p + 1]]
  {
  }

  lemma CutAround(tokens: seq<PatternToken>, p: nat, q: nat)
    requires p < q < |tokens|
    ensures tokens[p..q + 1] == [tokens[p]] + tokens[p + 1..q] + [tokens[q]]
  {
  }

  ghost predicate SpelledAt(tokens: seq<PatternToken>, a: Ast, p: nat) {
    p + Width(a) <= |tokens| && tokens[p..p + Width(a)] == Spelling(a)
  }

  lemma JoinBar(tokens: seq<PatternToken>, p: nat, u: seq<PatternToken>, v: seq<PatternToken>)
    requires p + |u| + 1 + |v| <= |tokens| && tokens[p..p + |u|] == u && tokens[p + |u| + 1..p + |u| + 1 + |v|] == v
    ensures tokens[p..p + |u| + 1 + |v|] == u + [tokens[p + |u|]] + v
  {
    CutBar(tokens, p, p + |u|, p + |u| + 1 + |v|);
  }

  lemma SpellingParts(a: Ast)
    ensures a.Or? ==> Spelling(a) == Spelling(a.left) + [TAlt] + Spelling(a.right) && Width(a) == Width(a.left) + 1 + Width(a.right)
    ensures a.Then? ==> Spelling(a) == Spelling(a.left) + Spelling(a.right) && Width(a) == Width(a.left) + Width(a.right)
    ensures a.Repeat? ==> Spelling(a) == Spelling(a.body) + a.spelling && Width(a) == Width(a.body) + |a.spelling|
    ensures a.Skip? ==> Spelling(a) == [a.t] + Spelling(a.body) && Width(a) == 1 + Width(a.body)
    ensures a.Group? ==> Spelling(a) == [TOpen] + Spelling(a.body) + [TClose] && Width(a) == Width(a.body) + 2
  {
  }

  lemma SpelledOr(tokens: seq<PatternToken>, l: Ast, r: Ast, p: nat)
    requires SpelledAt(tokens, l, p) && TokenAt(tokens, p + Width(l)) == TAlt && SpelledAt(tokens, r, p + Width(l) + 1)
    ensures SpelledAt(tokens, Or(l, r), p)
  {
    hide Spelling, Width;
    SpellingParts(Or(l, r));
    assert |Spelling(l)| == Width(l) && |Spelling(r)| == Width(r);
    JoinBar(tokens, p, Spelling(l), Spelling(r));
  }

  lemma SpelledThen(tokens: seq<PatternToken>, l: Ast, r: Ast, p: nat)
    requires SpelledAt(tokens, l, p) && SpelledAt(tokens, r, p + Width(l))
    ensures SpelledAt(tokens, Then(l, r), p)
  {
    hide Spelling, Width;
    SpellingParts(Then(l, r));
    CutPair(tokens, p, p + Width(l), p + Width(l) + Width(r));
  }

  lemma SpelledRepeat(tokens: seq<PatternToken>, a: Ast, p: nat)
    requires a.Repeat?
    requires var q := p + Width(a.body);
      q + |a.spelling| <= |tokens| && a.spelling == tokens[q..q + |a.spelling|]
    requires SpelledAt(tokens, a.body, p)
    ensures SpelledAt(tokens, a, p)
  {
    hide Spelling, Width;
    SpellingParts(a);
    CutPair(tokens, p, p + Width(a.body), p + Width(a));
  }

  lemma SpelledGroup(tokens: seq<PatternToken>, a: Ast, p: nat)
    requires a.Group? && TokenAt(tokens, p) == TOpen && TokenAt(tokens, p + 1 + Width(a.body)) == TClose
    requires SpelledAt(tokens, a.body, p + 1)
    ensures SpelledAt(tokens, a, p)
  {
    hide Spelling, Width;
    SpellingParts(a);
    CutAround(tokens, p, p + 1 + Width(a.body));
  }

  lemma SpelledSkip(tokens: seq<PatternToken>, a: Ast, p: nat)
    requires a.Skip? && p < |tokens| && tokens[p] == a.t && SpelledAt(tokens, a.body, p + 1)
    ensures SpelledAt(tokens, a, p)
  {
    hide Spelling, Width;
    SpellingParts(a);
    CutFirst(tokens, p, p + Width(a));
  }

  lemma SpelledAtom(tokens: seq<PatternToken>, x: Syntax, a: Ast, p: nat, first: bool, nested: bool)
    requires TopFits(tokens, x, a, p, first, nested) && Level(a) == 0 && !a.Group?
    ensures SpelledAt(tokens, a, p)
  {
    if !a.Blank? { CutFirst(tokens, p, p + Width(a)); }
  }

  /** The tokens that the top of a tree has itself. */
  lemma TopTokens(tokens: seq<PatternToken>, x: Syntax, a: Ast, p: nat, first: bool, nested: bool)
    requires TopFits(tokens, x, a, p, first, nested)
    ensures p + Width(a) <= |tokens|
    ensures a.Or? ==> TokenAt(tokens, p + Width(a.left)) == TAlt
    ensures a.Repeat? ==> Level(a.body) <= 1
    ensures a.Skip? ==> p < |tokens| && tokens[p] == a.t
    ensures a.Group? ==> TokenAt(tokens, p) == TOpen && TokenAt(tokens, p + 1 + Width(a.body)) == TClose
  {
    hide SpellsDup, LiteralBraceAt, LiteralOk, PassedOver, EndsInRepeat;
  }

  lemma TopRepeat(tokens: seq<PatternToken>, x: Syntax, a: Ast, p: nat, first: bool, nested: bool)
    requires TopFits(tokens, x, a, p, first, nested) && a.Repeat?
    ensures var q := p + Width(a.body); q + |a.spelling| <= |tokens| && a.spelling == tokens[q..q + |a.spelling|]
    ensures SpellsDup(a.spelling, a.lo, a.hi)
    ensures x.contextInvalidDup && a.body.Repeat? ==> !IsStarOrBrace(TokenAt(tokens, p + Width(a.body)))
  {
    hide SpellsDup, LiteralBraceAt;
  }

  /** What is read is what the tree is spelled with. */
  lemma {:induction false} ReadsSpelling(tokens: seq<PatternToken>, x: Syntax, a: Ast, p: nat, first: bool, nested: bool)
    requires Reads(tokens, x, a, p, first, nested)
    ensures SpelledAt(tokens, a, p)
    decreases a
  {
    hide SpelledAt, TopFits, SpellsDup;
    TopTokens(tokens, x, a, p, first, nested);
    match a
    case Or(l, r) =>
      ReadsSpelling(tokens, x, l, p, true, nested);
      ReadsSpelling(tokens, x, r, p + Width(l) + 1, true, nested);
      SpelledOr(tokens, l, r, p);
    case Then(l, r) =>
      ReadsSpelling(tokens, x, l, p, first, nested);
      ReadsSpelling(tokens, x, r, p + Width(l), false, nested);
      SpelledThen(tokens, l, r, p);
    case Repeat(b, _, _, _) =>
      ReadsSpelling(tokens, x, b, p, first, nested);
      TopRepeat(tokens, x, a, p, first, nested);
      SpelledRepeat(tokens, a, p);
    case Skip(_, b) =>
      ReadsSpelling(tokens, x, b, p + 1, true, false);
      SpelledSkip(tokens, a, p);
    case Group(_, b) =>
      ReadsSpelling(tokens, x, b, p + 1, true, true);
      SpelledGroup(tokens, a, p);
    case _ => SpelledAtom(tokens, x, a, p, first, nested);
  }

  lemma SpellsSpelling(tokens: seq<PatternToken>, x: Syntax, a: Ast)
    requires Spells(tokens, x, a)
    ensures tokens == Spelling(a)
  {
    ReadsSpelling(tokens, x, a, Beginning.pos, true, false);
    assert tokens[0..|tokens|] == tokens;
  }

  /** In particular every back-reference names a group closed earlier in the pattern that does
      not lie in a different alternative. */
  lemma SpellsRefersBack(tokens: seq<PatternToken>, x: Syntax, a: Ast)
    requires Spells(tokens, x, a)
    ensures RefersBack(a) && Referred(a) <= GroupsIn(a)
  {
    ScopeRefersBack(a, 0, {});
    RefsKnown(a, {});
  }

  // ----- Readings of parts and wholes -----

  lemma ReadsBounded(tokens: seq<PatternToken>, x: Syntax, a: Ast, p: nat, first: bool, nested: bool)
    requires Reads(tokens, x, a, p, first, nested)
    ensures p + Width(a) <= |tokens|
  {
  }

  lemma PlaceOfPair(a: Ast, b: Ast, s: Place)
    ensures Width(Then(a, b)) == Width(a) + Width(b) && Width(Or(a, b)) == Width(a) + 1 + Width(b)
    ensures After(Then(a, b), s) == After(b, After(a, s))
    ensures var t := After(b, NextBranch(a, s)); After(Or(a, b), s) == t.(closed := t.closed + Closed(a, s.closed))
  {
    assert Closed(Or(a, b), s.closed) == Closed(a, s.closed) + Closed(b, s.closed);
  }

  lemma TopThen(tokens: seq<PatternToken>, x: Syntax, a: Ast, b: Ast, p: nat, first: bool, nested: bool)
    requires Level(a) <= 3 && Level(b) <= 1 && !a.Blank? && !b.Blank? && p + Width(a) + Width(b) <= |tokens|
    requires x.contextInvalidDup && EndsInRepeat(a) ==> !TokenAt(tokens, p + Width(a)).TOpenDup?
    ensures TopFits(tokens, x, Then(a, b), p, first, nested)
  {
    hide SpellsDup, LiteralBraceAt, EndsInRepeat, LiteralOk, PassedOver;
  }

  lemma FitsThen(tokens: seq<PatternToken>, x: Syntax, a: Ast, b: Ast, s: Place, nested: bool)
    requires Fits(tokens, x, a, s, true, nested) && Fits(tokens, x, b, After(a, s), false, nested)
    requires Level(a) <= 3 && Level(b) <= 1 && !a.Blank? && !b.Blank?
    requires x.contextInvalidDup && EndsInRepeat(a) ==> !TokenAt(tokens, After(a, s).pos).TOpenDup?
    ensures Fits(tokens, x, Then(a, b), s, true, nested) && After(Then(a, b), s) == After(b, After(a, s))
  {
    hide TopFits, EndsInRepeat, RefsInScope, Numbered;
    ReadsBounded(tokens, x, b, After(a, s).pos, false, nested);
    TopThen(tokens, x, a, b, s.pos, true, nested);
    PlaceOfPair(a, b, s);
    ScopeOfPair(a, b, s);
  }

  lemma ScopeOfPair(a: Ast, b: Ast, s: Place)
    ensures RefsInScope(Then(a, b), s.closed) <==> RefsInScope(a, s.closed) && RefsInScope(b, After(a, s).closed)
    ensures Numbered(Then(a, b), s.groups) <==> Numbered(a, s.groups) && Numbered(b, After(a, s).groups)
  {
  }

  lemma FitsOr(tokens: seq<PatternToken>, x: Syntax, a: Ast, b: Ast, s: Place, nested: bool)
    requires Fits(tokens, x, a, s, true, nested) && Fits(tokens, x, b, NextBranch(a, s), true, nested) && Level(b) <= 3
    requires TokenAt(tokens, After(a, s).pos) == TAlt
    ensures Fits(tokens, x, Or(a, b), s, true, nested)
    ensures var t := After(b, NextBranch(a, s)); After(Or(a, b), s) == t.(closed := t.closed + Closed(a, s.closed))
  {
    hide SpellsDup, LiteralBraceAt;
  }

  lemma FitsBlank(tokens: seq<PatternToken>, x: Syntax, s: Place, first: bool, nested: bool)
    requires s.pos <= |tokens|
    ensures Fits(tokens, x, Blank, s, first, nested) && After(Blank, s) == s
  {
  }

  lemma FitsRepeat(tokens: seq<PatternToken>, x: Syntax, a: Ast, s: Place, first: bool, q: nat, lo: nat, hi: int)
    requires Fits(tokens, x, a, s, first, false) && Level(a) <= 1 && !a.Blank? && After(a, s).pos <= q <= |tokens|
    requires SpellsDup(tokens[After(a, s).pos..q], lo, hi)
    requires x.contextInvalidDup && a.Repeat? ==> !IsStarOrBrace(TokenAt(tokens, After(a, s).pos))
    ensures var b := Repeat(a, lo, hi, tokens[After(a, s).pos..q]);
      Fits(tokens, x, b, s, first, false) && After(b, s) == After(a, s).(pos := q)
  {
    hide SpellsDup;
  }

  lemma FitsSkip(tokens: seq<PatternToken>, x: Syntax, b: Ast, s: Place)
    requires s.pos < |tokens| && Fits(tokens, x, b, Passing(s), true, false) && Level(b) <= 2 && PassedOver(x, tokens[s.pos])
    requires b.Blank? ==> EndsBranch(TokenAt(tokens, s.pos + 1), false)
    ensures var a := Skip(tokens[s.pos], b); Fits(tokens, x, a, s, true, false) && After(a, s) == After(b, Passing(s))
  {
    hide SpellsDup, LiteralBraceAt;
  }

  lemma FitsGroup(tokens: seq<PatternToken>, x: Syntax, b: Ast, s: Place, first: bool)
    requires s.pos < |tokens| && tokens[s.pos] == TOpen && !b.Blank? && Fits(tokens, x, b, InGroupAt(s), true, true)
    requires TokenAt(tokens, After(b, InGroupAt(s)).pos) == TClose
    ensures var a, t := Group(s.groups, b), After(b, InGroupAt(s));
      Fits(tokens, x, a, s, first, false) && After(a, s) == t.(pos := t.pos + 1, closed := t.closed + Nameable(s.groups))
  {
    hide SpellsDup, LiteralBraceAt;
  }

  lemma FitsEmptyGroup(tokens: seq<PatternToken>, x: Syntax, s: Place, first: bool)
    requires s.pos < |tokens| && tokens[s.pos] == TOpen && TokenAt(tokens, s.pos + 1) == TClose
    ensures var a := EmptyGroup(s.groups);
      && Fits(tokens, x, a, s, first, false)
      && After(a, s) == Place(s.pos + 2, s.closed + Nameable(s.groups), s.groups + 1)
  {
    hide SpellsDup, LiteralBraceAt;
  }

  lemma TopUnnested(tokens: seq<PatternToken>, x: Syntax, a: Ast, p: nat, first: bool)
    requires TopFits(tokens, x, a, p, first, true)
    ensures TopFits(tokens, x, a, p, first, false)
  {
    hide SpellsDup, LiteralBraceAt;
  }

  lemma TopNested(tokens: seq<PatternToken>, x: Syntax, a: Ast, p: nat, first: bool)
    requires TopFits(tokens, x, a, p, first, false) && !TokenAt(tokens, p).TClose?
    ensures TopFits(tokens, x, a, p, first, true)
  {
    hide SpellsDup, LiteralBraceAt;
  }

  lemma FitsLiteral(tokens: seq<PatternToken>, x: Syntax, s: Place, first: bool)
    requires s.pos < |tokens|
    ensures var t := tokens[s.pos];
      LiteralOk(x, t) && (IsDupToken(t) ==> first) ==>
        Fits(tokens, x, Literal(t), s, first, false) && After(Literal(t), s) == s.(pos := s.pos + 1)
  {
    hide SpellsDup, LiteralBraceAt;
  }

  lemma FitsBrace(tokens: seq<PatternToken>, x: Syntax, s: Place, first: bool)
    requires s.pos < |tokens|
    ensures BraceStays(tokens, x, s.pos) && !first ==>
      Fits(tokens, x, LeftBrace, s, first, false) && After(LeftBrace, s) == s.(pos := s.pos + 1)
  {
    hide SpellsDup, LiteralBraceAt;
  }

  lemma FitsLeaf(tokens: seq<PatternToken>, x: Syntax, s: Place, first: bool)
    requires s.pos < |tokens|
    ensures var t := tokens[s.pos];
      t.TLeaf? ==> Fits(tokens, x, Leaf(t.tok), s, first, false) && After(Leaf(t.tok), s) == s.(pos := s.pos + 1)
  {
    hide SpellsDup, LiteralBraceAt;
  }

  lemma FitsRef(tokens: seq<PatternToken>, x: Syntax, s: Place, first: bool)
    requires s.pos < |tokens|
    ensures var t := tokens[s.pos];
      t.TBackRef? && t.idx in s.closed ==>
        Fits(tokens, x, Ref(t.idx), s, first, false) && After(Ref(t.idx), s) == s.(pos := s.pos + 1)
  {
    hide SpellsDup, LiteralBraceAt;
  }

  lemma FitsAtom(tokens: seq<PatternToken>, x: Syntax, s: Place, first: bool)
    requires s.pos < |tokens|
    ensures var t, s' := tokens[s.pos], s.(pos := s.pos + 1);
      && (LiteralOk(x, t) && (IsDupToken(t) ==> first) ==>
            Fits(tokens, x, Literal(t), s, first, false) && After(Literal(t), s) == s')
      && (BraceStays(tokens, x, s.pos) && !first ==> Fits(tokens, x, LeftBrace, s, first, false) && After(LeftBrace, s) == s')
      && (t.TLeaf? ==> Fits(tokens, x, Leaf(t.tok), s, first, false) && After(Leaf(t.tok), s) == s')
      && (t.TBackRef? && t.idx in s.closed ==> Fits(tokens, x, Ref(t.idx), s, first, false) && After(Ref(t.idx), s) == s')
  {
    hide SpellsDup, LiteralBraceAt, Fits, After, LiteralOk, BraceStays;
    FitsLiteral(tokens, x, s, first);
    FitsBrace(tokens, x, s, first);
    FitsLeaf(tokens, x, s, first);
    FitsRef(tokens, x, s, first);
  }

  /** Within a group fewer closing parentheses stand for themselves. */
  lemma {:induction false} Unnest(tokens: seq<PatternToken>, x: Syntax, a: Ast, p: nat, first: bool)
    requires Reads(tokens, x, a, p, first, true)
    ensures Reads(tokens, x, a, p, first, false)
    decreases a
  {
    hide TopFits;
    TopUnnested(tokens, x, a, p, first);
    match a
    case Or(l, r) => Unnest(tokens, x, l, p, true); Unnest(tokens, x, r, p + Width(l) + 1, true);
    case Then(l, r) => Unnest(tokens, x, l, p, first); Unnest(tokens, x, r, p + Width(l), false);
    case Repeat(b, _, _, _) => Unnest(tokens, x, b, p, first);
    case _ =>
  }

  lemma {:induction false} Nest(tokens: seq<PatternToken>, x: Syntax, a: Ast, p: nat, first: bool)
    requires Reads(tokens, x, a, p, first, false) && Level(a) <= 2 && !TokenAt(tokens, p).TClose?
    ensures Reads(tokens, x, a, p, first, true)
    decreases a
  {
    hide TopFits;
    TopNested(tokens, x, a, p, first);
    if a.Repeat? {
      TopTokens(tokens, x, a, p, first, false);
      Nest(tokens, x, a.body, p, first);
    }
  }

  /** What a tree that is not blank can begin with. */
  lemma {:induction false} FirstToken(tokens: seq<PatternToken>, x: Syntax, a: Ast, p: nat, first: bool, nested: bool)
    requires Reads(tokens, x, a, p, first, nested) && !a.Blank?
    ensures Level(a) <= 3 ==> p < |tokens| && !EndsBranch(tokens[p], nested)
    ensures nested ==> !TokenAt(tokens, p).TClose?
    ensures !first && Level(a) <= 3 && IsDupToken(tokens[p]) ==>
      tokens[p] == TOpenDup && x.invalidIntervalOrd && LiteralBraceAt(tokens, p)
    decreases a
  {
    hide SpellsDup, LiteralBraceAt;
    match a
    case Or(l, r) => if !l.Blank? { FirstToken(tokens, x, l, p, true, nested); }
    case Then(l, r) => FirstToken(tokens, x, l, p, first, nested);
    case Repeat(b, _, _, _) => FirstToken(tokens, x, b, p, first, nested);
    case _ =>
  }

  // ----- Atoms -----

  /** No other atom can be read here than `a`, if `ok`, or none at all. */
  ghost predicate AtomDecided(tokens: seq<PatternToken>, x: Syntax, s: Place, first: bool, ok: bool, a: Ast) {
    forall y | Level(y) == 0 && !y.Blank? && Fits(tokens, x, y, s, first, false) :: ok && y == a
  }

  lemma AtomSame(tokens: seq<PatternToken>, x: Syntax, s: Place, first: bool, a: Ast)
    requires Level(a) == 0 && !a.Blank? && Fits(tokens, x, a, s, first, false) && !tokens[s.pos].TOpen?
    ensures AtomDecided(tokens, x, s, first, true, a)
  {
    hide SpellsDup, LiteralBraceAt;
  }

  lemma AtomNone(tokens: seq<PatternToken>, x: Syntax, s: Place, first: bool, a: Ast)
    requires var t := TokenAt(tokens, s.pos);
      || (first && IsDupToken(t) && !LiteralOk(x, t)) || (t.TClose? && !x.unmatchedRightParenOrd)
      || (t.TBackRef? && t.idx !in s.closed)
    ensures AtomDecided(tokens, x, s, first, false, a)
  {
    hide SpellsDup, LiteralBraceAt;
  }

  lemma AtomEmptyGroup(tokens: seq<PatternToken>, x: Syntax, s: Place, first: bool)
    requires s.pos < |tokens| && tokens[s.pos] == TOpen && TokenAt(tokens, s.pos + 1) == TClose
    ensures AtomDecided(tokens, x, s, first, true, EmptyGroup(s.groups))
  {
    hide SpellsDup, LiteralBraceAt;
    forall y | Level(y) == 0 && !y.Blank? && Fits(tokens, x, y, s, first, false) ensures y == EmptyGroup(s.groups) {
      if y.Group? { FirstToken(tokens, x, y.body, s.pos + 1, true, true); }
    }
  }

  // ----- Repetitions -----

  ghost predicate RepeatOf(y: Ast, a: Ast) { y == a || (y.Repeat? && RepeatOf(y.body, a)) }

  /** After `a` up to `q` no operator follows that would belong to it. */
  ghost predicate EndsExpression(tokens: seq<PatternToken>, x: Syntax, a: Ast, q: nat) {
    var t := TokenAt(tokens, q);
    if a.Blank? then EndsBranch(t, false)
    else !IsDupToken(t) || (BraceStays(tokens, x, q) && !(x.contextInvalidDup && EndsInRepeat(a)))
  }

  ghost predicate BraceStays(tokens: seq<PatternToken>, x: Syntax, q: nat) {
    TokenAt(tokens, q).TOpenDup? && x.invalidIntervalOrd && LiteralBraceAt(tokens, q)
  }

  lemma {:induction false} CoreOf(tokens: seq<PatternToken>, x: Syntax, y: Ast, s: Place, first: bool) returns (c: Ast)
    requires Fits(tokens, x, y, s, first, false) && Level(y) <= 1 && !y.Blank?
    ensures RepeatOf(y, c) && Level(c) == 0 && !c.Blank? && Fits(tokens, x, c, s, first, false)
    decreases y
  {
    hide SpellsDup, LiteralBraceAt;
    if y.Repeat? { c := CoreOf(tokens, x, y.body, s, first); } else { c := y; }
  }

  lemma {:induction false} NextRepeat(tokens: seq<PatternToken>, x: Syntax, y: Ast, a: Ast, s: Place, first: bool) returns (n: Ast)
    requires Fits(tokens, x, y, s, first, false) && RepeatOf(y, a) && y != a
    ensures n.Repeat? && n.body == a && RepeatOf(y, n)
    ensures var p := After(a, s).pos; p + |n.spelling| <= |tokens| && n.spelling == tokens[p..p + |n.spelling|]
    ensures SpellsDup(n.spelling, n.lo, n.hi)
    ensures x.contextInvalidDup && a.Repeat? ==> !IsStarOrBrace(TokenAt(tokens, After(a, s).pos))
    decreases y
  {
    if y.body == a {
      n := y;
      TopRepeat(tokens, x, y, s.pos, first, false);
    } else {
      hide SpellsDup, TopFits;
      n := NextRepeat(tokens, x, y.body, a, s, first);
    }
  }

  /** Whatever repeats `a0` here repeats `a`. */
  ghost predicate RepeatGoesOn(tokens: seq<PatternToken>, x: Syntax, s: Place, first: bool, a0: Ast, a: Ast) {
    forall y | RepeatOf(y, a0) && Fits(tokens, x, y, s, first, false) && EndsExpression(tokens, x, y, After(y, s).pos) :: RepeatOf(y, a)
  }

  ghost predicate RepeatDecided(tokens: seq<PatternToken>, x: Syntax, s: Place, first: bool, a0: Ast, ok: bool, a: Ast) {
    forall y | RepeatOf(y, a0) && Fits(tokens, x, y, s, first, false) && EndsExpression(tokens, x, y, After(y, s).pos) :: ok && y == a
  }

  lemma RepeatStarts(tokens: seq<PatternToken>, x: Syntax, s: Place, first: bool, a: Ast)
    ensures RepeatGoesOn(tokens, x, s, first, a, a)
  {
  }

  lemma NoOperatorStays(tokens: seq<PatternToken>, x: Syntax, p: nat, q: nat, lo: nat, hi: int)
    requires p <= q <= |tokens| && SpellsDup(tokens[p..q], lo, hi)
    ensures p < |tokens| && IsDupToken(tokens[p]) && !BraceStays(tokens, x, p)
  {
    OneDup(tokens, p, q, lo, hi, q, lo, hi);
    if BraceStays(tokens, x, p) { LiteralNoInterval(tokens, p); }
  }

  /** An operator that can be applied is. */
  lemma RepeatNext(tokens: seq<PatternToken>, x: Syntax, s: Place, first: bool, a0: Ast, a: Ast, q: nat, lo: nat, hi: int)
    requires RepeatGoesOn(tokens, x, s, first, a0, a) && After(a, s).pos <= q <= |tokens| && !a.Blank?
    requires SpellsDup(tokens[After(a, s).pos..q], lo, hi)
    ensures RepeatGoesOn(tokens, x, s, first, a0, Repeat(a, lo, hi, tokens[After(a, s).pos..q]))
  {
    hide SpellsDup, LiteralBraceAt, NoIntervalAt, Fits, BraceStays;
    var p := After(a, s).pos;
    NoOperatorStays(tokens, x, p, q, lo, hi);
    forall y | RepeatOf(y, a0) && Fits(tokens, x, y, s, first, false) && EndsExpression(tokens, x, y, After(y, s).pos)
      ensures RepeatOf(y, Repeat(a, lo, hi, tokens[p..q]))
    {
      var n := NextRepeat(tokens, x, y, a, s, first);
      OneDup(tokens, p, q, lo, hi, p + |n.spelling|, n.lo, n.hi);
    }
  }

  lemma RepeatEnds(tokens: seq<PatternToken>, x: Syntax, s: Place, first: bool, a0: Ast, a: Ast)
    requires RepeatGoesOn(tokens, x, s, first, a0, a)
    requires !IsDupToken(TokenAt(tokens, After(a, s).pos)) || BraceStays(tokens, x, After(a, s).pos)
    ensures RepeatDecided(tokens, x, s, first, a0, true, a)
  {
    hide SpellsDup, LiteralBraceAt, NoIntervalAt, Fits, BraceStays;
    forall y | RepeatOf(y, a0) && Fits(tokens, x, y, s, first, false) && EndsExpression(tokens, x, y, After(y, s).pos)
      ensures y == a
    {
      if y != a {
        var n := NextRepeat(tokens, x, y, a, s, first);
        NoOperatorStays(tokens, x, After(a, s).pos, After(a, s).pos + |n.spelling|, n.lo, n.hi);
      }
    }
  }

  lemma NoInterval(tokens: seq<PatternToken>, p: nat, q: nat, lo: nat, hi: int)
    requires p <= q <= |tokens| && TokenAt(tokens, p).TOpenDup? && NoIntervalAt(tokens, p)
    ensures !SpellsDup(tokens[p..q], lo, hi)
  {
    if SpellsDup(tokens[p..q], lo, hi) {
      hide SpellsDup;
      OneDup(tokens, p, q, lo, hi, q, lo, hi);
    }
  }

  /** A brace that neither starts an interval nor may stay. */
  lemma RepeatFails(tokens: seq<PatternToken>, x: Syntax, s: Place, first: bool, a0: Ast, a: Ast, b: Ast)
    requires RepeatGoesOn(tokens, x, s, first, a0, a) && !a.Blank? && TokenAt(tokens, After(a, s).pos).TOpenDup?
    requires NoIntervalAt(tokens, After(a, s).pos) && !BraceStays(tokens, x, After(a, s).pos)
    ensures RepeatDecided(tokens, x, s, first, a0, false, b)
  {
    hide SpellsDup, LiteralBraceAt, NoIntervalAt, Fits, BraceStays;
    forall y | RepeatOf(y, a0) && Fits(tokens, x, y, s, first, false) && EndsExpression(tokens, x, y, After(y, s).pos)
      ensures false
    {
      if y != a {
        var n := NextRepeat(tokens, x, y, a, s, first);
        NoInterval(tokens, After(a, s).pos, After(a, s).pos + |n.spelling|, n.lo, n.hi);
      }
    }
  }

  /** An operator after a repetition where the syntax forbids it. */
  lemma RepeatTwice(tokens: seq<PatternToken>, x: Syntax, s: Place, first: bool, a0: Ast, a: Ast, b: Ast)
    requires RepeatGoesOn(tokens, x, s, first, a0, a) && a.Repeat? && x.contextInvalidDup
    requires IsStarOrBrace(TokenAt(tokens, After(a, s).pos))
    ensures RepeatDecided(tokens, x, s, first, a0, false, b)
  {
    hide SpellsDup, LiteralBraceAt, NoIntervalAt, Fits, BraceStays;
    forall y | RepeatOf(y, a0) && Fits(tokens, x, y, s, first, false) && EndsExpression(tokens, x, y, After(y, s).pos)
      ensures false
    {
      if y != a { var n := NextRepeat(tokens, x, y, a, s, first); }
    }
  }

  // ----- Expressions -----

  /** No other expression can be read here. */
  ghost predicate ExpressionDecided(tokens: seq<PatternToken>, x: Syntax, s: Place, first: bool, ok: bool, a: Ast) {
    forall y | Level(y) <= 2 && Fits(tokens, x, y, s, first, false) && EndsExpression(tokens, x, y, After(y, s).pos) :: ok && y == a
  }

  lemma ExpressionBlank(tokens: seq<PatternToken>, x: Syntax, s: Place, first: bool)
    requires EndsBranch(TokenAt(tokens, s.pos), false)
    ensures ExpressionDecided(tokens, x, s, first, true, Blank)
  {
    hide SpellsDup, LiteralBraceAt;
    forall y | Level(y) <= 2 && Fits(tokens, x, y, s, first, false) ensures y == Blank {
      if !y.Blank? { FirstToken(tokens, x, y, s.pos, first, false); }
    }
  }

  lemma ExpressionAtom(tokens: seq<PatternToken>, x: Syntax, s: Place, first: bool, ok0: bool, a0: Ast, ok: bool, a: Ast)
    requires !EndsBranch(TokenAt(tokens, s.pos), false) && !(first && PassedOver(x, TokenAt(tokens, s.pos)))
    requires AtomDecided(tokens, x, s, first, ok0, a0) && (ok0 ==> RepeatDecided(tokens, x, s, first, a0, ok, a))
    ensures ExpressionDecided(tokens, x, s, first, ok0 && ok, a)
  {
    hide SpellsDup, LiteralBraceAt;
    forall y | Level(y) <= 2 && Fits(tokens, x, y, s, first, false) && EndsExpression(tokens, x, y, After(y, s).pos)
      ensures ok0 && ok && y == a
    {
      var c := CoreOf(tokens, x, y, s, first);
    }
  }

  lemma {:induction false} NotPassedOver(tokens: seq<PatternToken>, x: Syntax, a: Ast, p: nat, first: bool)
    requires Reads(tokens, x, a, p, first, false) && Level(a) <= 1 && !a.Blank?
    ensures first ==> !PassedOver(x, TokenAt(tokens, p))
    decreases a
  {
    hide SpellsDup, LiteralBraceAt;
    if a.Repeat? { NotPassedOver(tokens, x, a.body, p, first); }
  }

  lemma ExpressionSkip(tokens: seq<PatternToken>, x: Syntax, s: Place, ok: bool, b: Ast)
    requires s.pos < |tokens| && PassedOver(x, tokens[s.pos]) && ExpressionDecided(tokens, x, Passing(s), true, ok, b)
    ensures ExpressionDecided(tokens, x, s, true, ok, Skip(tokens[s.pos], b))
  {
    hide SpellsDup, LiteralBraceAt;
    var a := Skip(tokens[s.pos], b);
    forall y | Level(y) <= 2 && Fits(tokens, x, y, s, true, false) && EndsExpression(tokens, x, y, After(y, s).pos)
      ensures ok && y == a
    {
      if Level(y) <= 1 { NotPassedOver(tokens, x, y, s.pos, true); }
    }
  }

  // ----- Branches -----

  ghost predicate ThenOf(y: Ast, a: Ast) { y == a || (y.Then? && ThenOf(y.left, a)) }

  ghost predicate BranchEndsAt(tokens: seq<PatternToken>, y: Ast, s: Place, nested: bool) {
    Level(y) <= 3 && EndsBranch(TokenAt(tokens, After(y, s).pos), nested)
  }

  /** Every branch that can be read here begins with `a`. */
  ghost predicate BranchGoesOn(tokens: seq<PatternToken>, x: Syntax, s: Place, nested: bool, a: Ast) {
    forall y | Fits(tokens, x, y, s, true, nested) && BranchEndsAt(tokens, y, s, nested) :: ThenOf(y, a)
  }

  ghost predicate BranchDecided(tokens: seq<PatternToken>, x: Syntax, s: Place, nested: bool, ok: bool, a: Ast) {
    forall y | Fits(tokens, x, y, s, true, nested) && BranchEndsAt(tokens, y, s, nested) :: ok && y == a
  }

  lemma {:induction false} FirstOfBranch(tokens: seq<PatternToken>, x: Syntax, y: Ast, s: Place, nested: bool) returns (e: Ast)
    requires Fits(tokens, x, y, s, true, nested) && Level(y) <= 3 && EndsExpression(tokens, x, y, After(y, s).pos)
    ensures ThenOf(y, e) && Level(e) <= 2 && Fits(tokens, x, e, s, true, nested) && EndsExpression(tokens, x, e, After(e, s).pos)
    decreases y
  {
    hide SpellsDup, LiteralBraceAt;
    if y.Then? {
      FirstToken(tokens, x, y.right, After(y.left, s).pos, false, nested);
      e := FirstOfBranch(tokens, x, y.left, s, nested);
    } else {
      e := y;
    }
  }

  lemma {:induction false} NextInBranch(tokens: seq<PatternToken>, x: Syntax, y: Ast, a: Ast, s: Place, nested: bool) returns (r: Ast)
    requires Fits(tokens, x, y, s, true, nested) && ThenOf(y, a) && y != a && EndsExpression(tokens, x, y, After(y, s).pos)
    ensures ThenOf(y, Then(a, r)) && Level(r) <= 1 && !r.Blank? && Fits(tokens, x, r, After(a, s), false, nested)
    ensures EndsExpression(tokens, x, r, After(r, After(a, s)).pos)
    decreases y
  {
    hide SpellsDup, LiteralBraceAt;
    if y.left == a {
      r := y.right;
    } else {
      FirstToken(tokens, x, y.right, After(y.left, s).pos, false, nested);
      r := NextInBranch(tokens, x, y.left, a, s, nested);
    }
  }

  lemma FitsUnnested(tokens: seq<PatternToken>, x: Syntax, a: Ast, s: Place, first: bool, nested: bool)
    requires Fits(tokens, x, a, s, first, nested)
    ensures Fits(tokens, x, a, s, first, false)
  {
    if nested { Unnest(tokens, x, a, s.pos, first); }
  }

  lemma FitsNested(tokens: seq<PatternToken>, x: Syntax, a: Ast, s: Place, first: bool, nested: bool)
    requires Fits(tokens, x, a, s, first, false) && Level(a) <= 2 && !(nested && TokenAt(tokens, s.pos).TClose?)
    ensures Fits(tokens, x, a, s, first, nested)
  {
    if nested { Nest(tokens, x, a, s.pos, first); }
  }

  lemma BranchStarts(tokens: seq<PatternToken>, x: Syntax, s: Place, nested: bool, ok: bool, e: Ast, a: Ast)
    requires ExpressionDecided(tokens, x, s, true, ok, e) && !(nested && TokenAt(tokens, s.pos).TClose?)
    ensures if ok then BranchGoesOn(tokens, x, s, nested, e) else BranchDecided(tokens, x, s, nested, false, a)
  {
    forall y | Fits(tokens, x, y, s, true, nested) && BranchEndsAt(tokens, y, s, nested) ensures ok && ThenOf(y, e) {
      var e' := FirstOfBranch(tokens, x, y, s, nested);
      FitsUnnested(tokens, x, e', s, true, nested);
    }
  }

  lemma BranchNext(tokens: seq<PatternToken>, x: Syntax, s: Place, nested: bool, a: Ast, ok: bool, b: Ast, c: Ast)
    requires BranchGoesOn(tokens, x, s, nested, a) && !EndsBranch(TokenAt(tokens, After(a, s).pos), nested)
    requires ExpressionDecided(tokens, x, After(a, s), false, ok, b)
    ensures if ok then BranchGoesOn(tokens, x, s, nested, Then(a, b)) else BranchDecided(tokens, x, s, nested, false, c)
  {
    forall y | Fits(tokens, x, y, s, true, nested) && BranchEndsAt(tokens, y, s, nested) ensures ok && ThenOf(y, Then(a, b)) {
      var r := NextInBranch(tokens, x, y, a, s, nested);
      FitsUnnested(tokens, x, r, After(a, s), false, nested);
    }
  }

  lemma BranchEnds(tokens: seq<PatternToken>, x: Syntax, s: Place, nested: bool, a: Ast)
    requires BranchGoesOn(tokens, x, s, nested, a) && EndsBranch(TokenAt(tokens, After(a, s).pos), nested)
    ensures BranchDecided(tokens, x, s, nested, true, a)
  {
    forall y | Fits(tokens, x, y, s, true, nested) && BranchEndsAt(tokens, y, s, nested) ensures y == a {
      if y != a {
        var r := NextInBranch(tokens, x, y, a, s, nested);
        FirstToken(tokens, x, r, After(a, s).pos, false, nested);
      }
    }
  }

  lemma BranchBlank(tokens: seq<PatternToken>, x: Syntax, s: Place, nested: bool)
    requires EndsBranch(TokenAt(tokens, s.pos), nested)
    ensures BranchDecided(tokens, x, s, nested, true, Blank)
  {
    forall y | Fits(tokens, x, y, s, true, nested) && Level(y) <= 3 ensures y == Blank {
      if !y.Blank? { FirstToken(tokens, x, y, s.pos, true, nested); }
    }
  }

  // ----- Alternatives and groups -----

  predicate Closes(t: PatternToken, nested: bool) { t.TEnd? || (nested && t.TClose?) }

  ghost predicate OrOf(y: Ast, a: Ast) { y == a || (y.Or? && OrOf(y.left, a)) }

  ghost predicate PatternEndsAt(tokens: seq<PatternToken>, y: Ast, s: Place, nested: bool) {
    Closes(TokenAt(tokens, After(y, s).pos), nested)
  }

  ghost predicate PatternGoesOn(tokens: seq<PatternToken>, x: Syntax, s: Place, nested: bool, a: Ast) {
    forall y | Fits(tokens, x, y, s, true, nested) && PatternEndsAt(tokens, y, s, nested) :: OrOf(y, a)
  }

  ghost predicate PatternDecided(tokens: seq<PatternToken>, x: Syntax, s: Place, nested: bool, ok: bool, a: Ast) {
    forall y | Fits(tokens, x, y, s, true, nested) && PatternEndsAt(tokens, y, s, nested) :: ok && y == a
  }

  lemma {:induction false} FirstOfPattern(tokens: seq<PatternToken>, x: Syntax, y: Ast, s: Place, nested: bool) returns (e: Ast)
    requires Fits(tokens, x, y, s, true, nested) && EndsBranch(TokenAt(tokens, After(y, s).pos), nested)
    ensures OrOf(y, e) && Fits(tokens, x, e, s, true, nested) && BranchEndsAt(tokens, e, s, nested)
    decreases y
  {
    hide SpellsDup, LiteralBraceAt;
    if y.Or? { e := FirstOfPattern(tokens, x, y.left, s, nested); } else { e := y; }
  }

  lemma OrParts(tokens: seq<PatternToken>, x: Syntax, y: Ast, s: Place, nested: bool)
    requires y.Or? && Fits(tokens, x, y, s, true, nested)
    ensures Fits(tokens, x, y.left, s, true, nested) && TokenAt(tokens, After(y.left, s).pos) == TAlt
    ensures var m := NextBranch(y.left, s);
      Fits(tokens, x, y.right, m, true, nested) && Level(y.right) <= 3 && After(y.right, m).pos == After(y, s).pos
  {
    hide SpellsDup, LiteralBraceAt;
  }

  lemma {:induction false} NextInPattern(tokens: seq<PatternToken>, x: Syntax, y: Ast, a: Ast, s: Place, nested: bool) returns (r: Ast)
    requires Fits(tokens, x, y, s, true, nested) && OrOf(y, a) && y != a && EndsBranch(TokenAt(tokens, After(y, s).pos), nested)
    ensures OrOf(y, Or(a, r)) && TokenAt(tokens, After(a, s).pos) == TAlt
    ensures Fits(tokens, x, r, NextBranch(a, s), true, nested) && BranchEndsAt(tokens, r, NextBranch(a, s), nested)
    decreases y
  {
    hide Fits, After, NextBranch;
    OrParts(tokens, x, y, s, nested);
    if y.left == a { r := y.right; } else { r := NextInPattern(tokens, x, y.left, a, s, nested); }
  }

  lemma PatternStarts(tokens: seq<PatternToken>, x: Syntax, s: Place, nested: bool, ok: bool, e: Ast, a: Ast)
    requires BranchDecided(tokens, x, s, nested, ok, e)
    ensures if ok then PatternGoesOn(tokens, x, s, nested, e) else PatternDecided(tokens, x, s, nested, false, a)
  {
    forall y | Fits(tokens, x, y, s, true, nested) && PatternEndsAt(tokens, y, s, nested) ensures ok && OrOf(y, e) {
      var e' := FirstOfPattern(tokens, x, y, s, nested);
    }
  }

  lemma PatternNext(tokens: seq<PatternToken>, x: Syntax, s: Place, nested: bool, a: Ast, ok: bool, b: Ast, c: Ast)
    requires PatternGoesOn(tokens, x, s, nested, a) && TokenAt(tokens, After(a, s).pos) == TAlt
    requires BranchDecided(tokens, x, NextBranch(a, s), nested, ok, b)
    ensures if ok then PatternGoesOn(tokens, x, s, nested, Or(a, b)) else PatternDecided(tokens, x, s, nested, false, c)
  {
    forall y | Fits(tokens, x, y, s, true, nested) && PatternEndsAt(tokens, y, s, nested) ensures ok && OrOf(y, Or(a, b)) {
      var r := NextInPattern(tokens, x, y, a, s, nested);
    }
  }

  lemma PatternEnds(tokens: seq<PatternToken>, x: Syntax, s: Place, nested: bool, a: Ast)
    requires PatternGoesOn(tokens, x, s, nested, a) && !TokenAt(tokens, After(a, s).pos).TAlt?
    ensures PatternDecided(tokens, x, s, nested, true, a)
  {
    forall y | Fits(tokens, x, y, s, true, nested) && PatternEndsAt(tokens, y, s, nested) ensures y == a {
      if y != a { var r := NextInPattern(tokens, x, y, a, s, nested); }
    }
  }

  /** A group is decided by its body, and by the parenthesis after it. */
  lemma AtomGroup(tokens: seq<PatternToken>, x: Syntax, s: Place, first: bool, ok: bool, b: Ast, c: Ast)
    requires s.pos < |tokens| && tokens[s.pos] == TOpen && !TokenAt(tokens, s.pos + 1).TClose?
    requires PatternDecided(tokens, x, InGroupAt(s), true, ok, b)
    ensures if ok && TokenAt(tokens, After(b, InGroupAt(s)).pos).TClose? then AtomDecided(tokens, x, s, first, true, Group(s.groups, b))
            else AtomDecided(tokens, x, s, first, false, c)
  {
    hide SpellsDup, LiteralBraceAt;
    forall y | Level(y) == 0 && !y.Blank? && Fits(tokens, x, y, s, first, false)
      ensures y.Group? && ok && y == Group(s.groups, b) && TokenAt(tokens, After(b, InGroupAt(s)).pos).TClose?
    {
      assert y.Group?;
      assert PatternEndsAt(tokens, y.body, InGroupAt(s), true);
    }
  }

  /** The whole pattern. */
  lemma AllDecided(tokens: seq<PatternToken>, x: Syntax, ok: bool, a: Ast)
    requires PatternDecided(tokens, x, Beginning, false, ok, a)
    ensures forall y | Spells(tokens, x, y) :: ok && y == a
  {
    forall y | Spells(tokens, x, y) ensures ok && y == a { assert PatternEndsAt(tokens, y, Beginning, false); }
  }

  // ----- No pattern has two syntax trees -----

  lemma AtomParts(tokens: seq<PatternToken>, x: Syntax, a: Ast, s: Place, first: bool)
    requires Fits(tokens, x, a, s, first, false) && Level(a) == 0 && !a.Blank?
    ensures s.pos < |tokens| && (tokens[s.pos].TOpen? <==> a.Group? || a.EmptyGroup?)
    ensures a.EmptyGroup? ==> a.k == s.groups && TokenAt(tokens, s.pos + 1) == TClose
  {
    hide SpellsDup, LiteralBraceAt;
    assert TopFits(tokens, x, a, s.pos, first, false) && Numbered(a, s.groups);
    hide Reads, RefsInScope;
  }

  lemma GroupParts(tokens: seq<PatternToken>, x: Syntax, a: Ast, s: Place, first: bool)
    requires Fits(tokens, x, a, s, first, false) && a.Group?
    ensures a.k == s.groups && Fits(tokens, x, a.body, InGroupAt(s), true, true) && !TokenAt(tokens, s.pos + 1).TClose?
    ensures TokenAt(tokens, After(a.body, InGroupAt(s)).pos).TClose?
  {
    hide SpellsDup, LiteralBraceAt;
    assert TopFits(tokens, x, a, s.pos, first, false) && Reads(tokens, x, a.body, s.pos + 1, true, true);
    FirstToken(tokens, x, a.body, s.pos + 1, true, true);
  }

  lemma {:induction false} SelfAtom(tokens: seq<PatternToken>, x: Syntax, a: Ast, s: Place, first: bool)
    requires Fits(tokens, x, a, s, first, false) && Level(a) == 0 && !a.Blank?
    ensures AtomDecided(tokens, x, s, first, true, a)
    decreases a, 0
  {
    hide AtomDecided, PatternDecided, Fits, After;
    AtomParts(tokens, x, a, s, first);
    if a.EmptyGroup? {
      AtomEmptyGroup(tokens, x, s, first);
    } else if a.Group? {
      GroupParts(tokens, x, a, s, first);
      SelfPattern(tokens, x, a.body, InGroupAt(s), true);
      AtomGroup(tokens, x, s, first, true, a.body, a);
    } else {
      AtomSame(tokens, x, s, first, a);
    }
  }

  lemma {:induction false} SelfRepeat(tokens: seq<PatternToken>, x: Syntax, a: Ast, s: Place, first: bool) returns (c: Ast)
    requires Fits(tokens, x, a, s, first, false) && Level(a) <= 1 && !a.Blank?
    ensures AtomDecided(tokens, x, s, first, true, c) && RepeatGoesOn(tokens, x, s, first, c, a)
    decreases a, 1
  {
    hide AtomDecided, RepeatGoesOn, SpellsDup, LiteralBraceAt;
    if a.Repeat? {
      c := SelfRepeat(tokens, x, a.body, s, first);
      RepeatNext(tokens, x, s, first, c, a.body, After(a, s).pos, a.lo, a.hi);
    } else {
      c := a;
      SelfAtom(tokens, x, a, s, first);
      RepeatStarts(tokens, x, s, first, a);
    }
  }

  lemma {:induction false} SelfExpression(tokens: seq<PatternToken>, x: Syntax, a: Ast, s: Place, first: bool)
    requires Fits(tokens, x, a, s, first, false) && Level(a) <= 2 && EndsExpression(tokens, x, a, After(a, s).pos)
    ensures ExpressionDecided(tokens, x, s, first, true, a)
    decreases a, 2
  {
    hide AtomDecided, RepeatGoesOn, RepeatDecided, ExpressionDecided, SpellsDup, LiteralBraceAt;
    if a.Blank? {
      ExpressionBlank(tokens, x, s, first);
    } else if a.Skip? {
      SelfExpression(tokens, x, a.body, Passing(s), true);
      ExpressionSkip(tokens, x, s, true, a.body);
    } else {
      FirstToken(tokens, x, a, s.pos, first, false);
      var c := SelfRepeat(tokens, x, a, s, first);
      RepeatEnds(tokens, x, s, first, c, a);
      NotPassedOver(tokens, x, a, s.pos, first);
      ExpressionAtom(tokens, x, s, first, true, c, true, a);
    }
  }

  lemma {:induction false} SelfBranch(tokens: seq<PatternToken>, x: Syntax, a: Ast, s: Place, nested: bool)
    requires Fits(tokens, x, a, s, true, nested) && Level(a) <= 3 && !a.Blank? && EndsExpression(tokens, x, a, After(a, s).pos)
    ensures BranchGoesOn(tokens, x, s, nested, a)
    decreases a, 3
  {
    hide ExpressionDecided, BranchGoesOn, SpellsDup, LiteralBraceAt;
    if a.Then? {
      var l, r := a.left, a.right;
      FirstToken(tokens, x, r, After(l, s).pos, false, nested);
      SelfBranch(tokens, x, l, s, nested);
      FitsUnnested(tokens, x, r, After(l, s), false, nested);
      SelfExpression(tokens, x, r, After(l, s), false);
      BranchNext(tokens, x, s, nested, l, true, r, a);
    } else {
      FirstToken(tokens, x, a, s.pos, true, nested);
      FitsUnnested(tokens, x, a, s, true, nested);
      SelfExpression(tokens, x, a, s, true);
      BranchStarts(tokens, x, s, nested, true, a, a);
    }
  }

  lemma {:induction false} SelfWholeBranch(tokens: seq<PatternToken>, x: Syntax, a: Ast, s: Place, nested: bool)
    requires Fits(tokens, x, a, s, true, nested) && BranchEndsAt(tokens, a, s, nested)
    ensures BranchDecided(tokens, x, s, nested, true, a)
    decreases a, 4
  {
    hide BranchGoesOn, BranchDecided, SpellsDup, LiteralBraceAt;
    if a.Blank? {
      BranchBlank(tokens, x, s, nested);
    } else {
      SelfBranch(tokens, x, a, s, nested);
      BranchEnds(tokens, x, s, nested, a);
    }
  }

  lemma {:induction false} SelfOr(tokens: seq<PatternToken>, x: Syntax, a: Ast, s: Place, nested: bool)
    requires Fits(tokens, x, a, s, true, nested) && EndsBranch(TokenAt(tokens, After(a, s).pos), nested)
    ensures PatternGoesOn(tokens, x, s, nested, a)
    decreases a, 5
  {
    hide BranchDecided, PatternGoesOn, SpellsDup, LiteralBraceAt;
    if a.Or? {
      SelfOr(tokens, x, a.left, s, nested);
      SelfWholeBranch(tokens, x, a.right, NextBranch(a.left, s), nested);
      PatternNext(tokens, x, s, nested, a.left, true, a.right, a);
    } else {
      SelfWholeBranch(tokens, x, a, s, nested);
      PatternStarts(tokens, x, s, nested, true, a, a);
    }
  }

  lemma {:induction false} SelfPattern(tokens: seq<PatternToken>, x: Syntax, a: Ast, s: Place, nested: bool)
    requires Fits(tokens, x, a, s, true, nested) && PatternEndsAt(tokens, a, s, nested)
    ensures PatternDecided(tokens, x, s, nested, true, a)
    decreases a, 6
  {
    hide PatternGoesOn, PatternDecided, Fits;
    SelfOr(tokens, x, a, s, nested);
    PatternEnds(tokens, x, s, nested, a);
  }

  /** The grammar is unambiguous. */
  lemma OneReading(tokens: seq<PatternToken>, x: Syntax, a: Ast, b: Ast)
    requires Spells(tokens, x, a) && Spells(tokens, x, b)
    ensures a == b
  {
    hide PatternDecided, Fits;
    SelfPattern(tokens, x, a, Beginning, false);
    AllDecided(tokens, x, true, a);
  }

  // ----- Groups are numbered by their opening parentheses -----

  /** How many opening parentheses there are before position `p`. */
  ghost function Opens(tokens: seq<PatternToken>, p: nat): nat
    requires p <= |tokens|
  {
    if p == 0 then 0 else Opens(tokens, p - 1) + if tokens[p - 1] == TOpen then 1 else 0
  }

  /** The number of every group is that of the opening parentheses before its own. */
  ghost predicate NumberedByParens(tokens: seq<PatternToken>, a: Ast, p: nat) {
    p + Width(a) <= |tokens| &&
    match a
    case Or(l, r) => NumberedByParens(tokens, l, p) && NumberedByParens(tokens, r, p + Width(l) + 1)
    case Then(l, r) => NumberedByParens(tokens, l, p) && NumberedByParens(tokens, r, p + Width(l))
    case Repeat(b, _, _, _) => NumberedByParens(tokens, b, p)
    case Skip(_, b) => NumberedByParens(tokens, b, p + 1)
    case Group(k, b) => tokens[p] == TOpen && k == Opens(tokens, p) && NumberedByParens(tokens, b, p + 1)
    case EmptyGroup(k) => tokens[p] == TOpen && k == Opens(tokens, p)
    case _ => true
  }

  lemma {:induction false} NoOpens(tokens: seq<PatternToken>, p: nat, q: nat)
    requires p <= q <= |tokens| && TOpen !in tokens[p..q]
    ensures Opens(tokens, q) == Opens(tokens, p)
    decreases q
  {
    if p < q {
      assert tokens[p..q][q - 1 - p] == tokens[q - 1];
      assert tokens[p..q - 1] == tokens[p..q][..q - 1 - p];
      NoOpens(tokens, p, q - 1);
    }
  }

  lemma DupNoOpens(s: seq<PatternToken>, lo: nat, hi: int)
    requires SpellsDup(s, lo, hi)
    ensures TOpen !in s
  {
  }

  /** How many there are before and after each part of a tree. */
  lemma TopOpens(tokens: seq<PatternToken>, x: Syntax, a: Ast, p: nat, first: bool, nested: bool)
    requires TopFits(tokens, x, a, p, first, nested)
    ensures p + Width(a) <= |tokens|
    ensures a.Or? ==> Opens(tokens, p + Width(a.left) + 1) == Opens(tokens, p + Width(a.left))
    ensures a.Repeat? ==> Opens(tokens, p + Width(a)) == Opens(tokens, p + Width(a.body))
    ensures a.Skip? ==> Opens(tokens, p + 1) == Opens(tokens, p)
    ensures a.Group? ==>
      && tokens[p] == TOpen && Opens(tokens, p + 1) == Opens(tokens, p) + 1
      && Opens(tokens, p + Width(a)) == Opens(tokens, p + 1 + Width(a.body))
  {
    TopTokens(tokens, x, a, p, first, nested);
    if a.Repeat? {
      TopRepeat(tokens, x, a, p, first, nested);
      DupNoOpens(a.spelling, a.lo, a.hi);
      NoOpens(tokens, p + Width(a.body), p + Width(a));
    }
    if a.Skip? { assert IsDupToken(a.t); }
    hide TopFits, SpellsDup;
  }

  lemma PartWidths(a: Ast)
    ensures match a
      case Or(l, r) => Width(a) == Width(l) + 1 + Width(r)
      case Then(l, r) => Width(a) == Width(l) + Width(r)
      case Skip(_, b) => Width(a) == 1 + Width(b)
      case Group(_, b) => Width(a) == Width(b) + 2
      case Blank => Width(a) == 0
      case _ => true
  {
  }

  lemma AtomOpens(tokens: seq<PatternToken>, x: Syntax, a: Ast, p: nat, first: bool, nested: bool)
    requires TopFits(tokens, x, a, p, first, nested) && (a.Literal? || a.LeftBrace? || a.Leaf? || a.EmptyGroup? || a.Ref?)
    ensures p + Width(a) <= |tokens| && Opens(tokens, p + Width(a)) == Opens(tokens, p) + if a.EmptyGroup? then 1 else 0
    ensures a.EmptyGroup? ==> tokens[p] == TOpen
  {
    hide SpellsDup, LiteralBraceAt;
    if a.EmptyGroup? { assert Opens(tokens, p + 2) == Opens(tokens, p + 1) && Opens(tokens, p + 1) == Opens(tokens, p) + 1; }
  }

  lemma {:induction false} ReadNumbers(tokens: seq<PatternToken>, x: Syntax, a: Ast, p: nat, first: bool, nested: bool)
    requires Reads(tokens, x, a, p, first, nested) && Numbered(a, Opens(tokens, p))
    ensures p + Width(a) <= |tokens|
    ensures NumberedByParens(tokens, a, p) && NextNumber(a, Opens(tokens, p)) == Opens(tokens, p + Width(a))
    decreases a
  {
    hide TopFits, Opens, Width;
    TopOpens(tokens, x, a, p, first, nested);
    PartWidths(a);
    match a
    case Or(l, r) =>
      ReadNumbers(tokens, x, l, p, true, nested);
      ReadNumbers(tokens, x, r, p + Width(l) + 1, true, nested);
    case Then(l, r) =>
      ReadNumbers(tokens, x, l, p, first, nested);
      ReadNumbers(tokens, x, r, p + Width(l), false, nested);
    case Repeat(b, _, _, _) => ReadNumbers(tokens, x, b, p, first, nested);
    case Skip(_, b) => ReadNumbers(tokens, x, b, p + 1, true, false);
    case Group(_, b) => ReadNumbers(tokens, x, b, p + 1, true, true);
    case Blank =>
    case _ => AtomOpens(tokens, x, a, p, first, nested);
  }

  /** In every pattern with a syntax tree group k is the one whose parenthesis is opened after k
      others, counting from 0. */
  lemma SpellsNumbers(tokens: seq<PatternToken>, x: Syntax, a: Ast)
    requires Spells(tokens, x, a)
    ensures NumberedByParens(tokens, a, 0) && NextNumber(a, 0) == Opens(tokens, |tokens|)
  {
    hide Reads, Numbered, NumberedByParens;
    ReadNumbers(tokens, x, a, 0, true, false);
  }
}
