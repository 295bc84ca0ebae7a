/** The recursive-descent parser of patterns, building trees in the arena. */
module PatternParser {
  import opened RegexTree
  import opened TreeStore
  import opened DupOps
  import opened Patterns
  import opened NfaLanguage
  import opened Readings
  import opened PatternErrors
  import opened Shapes

  /** A tree pointer (-1 for NULL) or an error code. */
  datatype Result = Ok(tree: int) | Fail(error: Error)

  /** What reads as a tree has bounds in order and leaves that consume something. */
  lemma {:induction false} ReadsOk(tokens: seq<PatternToken>, x: Syntax, a: Ast, p: nat, first: bool, nested: bool)
    requires TokensOk(tokens) && Reads(tokens, x, a, p, first, nested)
    ensures BoundsOk(a) && LeavesOk(a)
    decreases a
  {
    hide TopFits, TokensOk, Width;
    TopOk(tokens, x, a, p, first, nested);
    match a
    case Or(l, r) =>
      ReadsOk(tokens, x, l, p, true, nested);
      ReadsOk(tokens, x, r, p + Width(l) + 1, true, nested);
    case Then(l, r) =>
      ReadsOk(tokens, x, l, p, first, nested);
      ReadsOk(tokens, x, r, p + Width(l), false, nested);
    case Repeat(b, _, _, _) => ReadsOk(tokens, x, b, p, first, nested);
    case Skip(_, b) => ReadsOk(tokens, x, b, p + 1, true, false);
    case Group(_, b) => ReadsOk(tokens, x, b, p + 1, true, true);
    case _ =>
  }

  lemma TopOk(tokens: seq<PatternToken>, x: Syntax, a: Ast, p: nat, first: bool, nested: bool)
    requires TokensOk(tokens) && TopFits(tokens, x, a, p, first, nested)
    ensures a.Repeat? ==> a.hi == -1 || a.lo <= a.hi
    ensures a.Leaf? ==> a.tok.SimpleBracket? || a.tok.Period?
  {
    hide LiteralBraceAt, LiteralOk, PassedOver, EndsInRepeat;
    if a.Repeat? { TopRepeat(tokens, x, a, p, first, nested); BoundsInOrder(a.spelling, a.lo, a.hi); }
  }

  lemma BoundsInOrder(s: seq<PatternToken>, lo: nat, hi: int)
    requires SpellsDup(s, lo, hi)
    ensures hi == -1 || lo <= hi
  {
  }

  // ----- What a parsing method has done -----

  /** A tree made of new cells alone. */
  ghost predicate Built(h0: Store, h: Store, t: Tree) {
    Owned(h0, h, {}) && OwnTree(h0, h, t, {}) && Parsed(t)
  }

  lemma BuiltNull(h: Store)
    ensures Built(h, h, Null)
  {
  }

  /** Two trees built one after the other do not interfere. */
  lemma BuiltTwice(h0: Store, h1: Store, h2: Store, t: Tree, u: Tree)
    requires Built(h0, h1, t) && Built(h1, h2, u)
    ensures Built(h0, h2, t) && Built(h0, h2, u) && Ids(t) !! Ids(u)
  {
    TreeAtSlots(h1, t, -1);
    TreeAtFrame(h1, h2, t, -1);
  }

  lemma BuiltNode(h0: Store, h: Store, t: Tree, u: Tree, tok: Token)
    requires Built(h0, h, t) && Built(h0, h, u) && Ids(t) !! Ids(u)
    requires Parsed(Node(0, tok, t, u))
    ensures Built(h0, CreateTree(h, Ptr(t), Ptr(u), tok), Node(|h.cells|, tok, t, u))
    ensures TreeAt(h, t, -1) && TreeAt(h, u, -1) && Distinct(t) && Distinct(u)
  {
    NewOwn(h0, h, {}, t, u, -1, -1, tok);
  }

  lemma BuiltAt(h0: Store, h: Store, t: Tree)
    requires Built(h0, h, t)
    ensures TreeAt(h, t, -1) && Distinct(t)
  {
  }

  lemma BuiltGroup(h0: Store, h: Store, t: Tree, k: nat)
    requires Built(h0, h, t)
    ensures Built(h0, CreateTree(h, Ptr(t), -1, Subexp(k)), Node(|h.cells|, Subexp(k), t, Null))
    ensures TreeAt(h, t, -1) && TreeAt(h, Null, -1) && Distinct(t) && Distinct(Null) && Ids(t) !! Ids(Null)
  {
    BuiltNode(h0, h, t, Null, Subexp(k));
  }

  lemma BuiltConcat(h0: Store, h: Store, t: Tree, u: Tree)
    requires Built(h0, h, t) && Built(h0, h, u) && Ids(t) !! Ids(u) && t.Node? && u.Node?
    ensures Built(h0, CreateTree(h, t.id, u.id, Concat), Node(|h.cells|, Concat, t, u))
    ensures TreeAt(h, t, -1) && TreeAt(h, u, -1) && Distinct(t) && Distinct(u)
  {
    BuiltNode(h0, h, t, u, Concat);
  }

  lemma BuiltAlt(h0: Store, h: Store, t: Tree, u: Tree)
    requires Built(h0, h, t) && Built(h0, h, u) && Ids(t) !! Ids(u)
    ensures Built(h0, CreateTree(h, Ptr(t), Ptr(u), Alt), Node(|h.cells|, Alt, t, u))
    ensures TreeAt(h, t, -1) && TreeAt(h, u, -1) && Distinct(t) && Distinct(u)
  {
    BuiltNode(h0, h, t, u, Alt);
  }

  lemma BuiltDup(h0: Store, h1: Store, h2: Store, t: Tree, u: Tree, lo: nat, hi: int)
    requires Built(h0, h1, t) && Owned(h1, h2, Ids(t)) && OwnTree(h1, h2, u, Ids(t))
    requires (hi == -1 || lo <= hi) && SameTokens(Expansion(t, lo, hi), u)
    ensures Built(h0, h2, u)
  {
    ExpansionCopied(t, lo, hi);
    if u.Node? && Parsed(t) {
      CopiesParsed(Expansion(t, lo, hi), t);
      CopyParsed(Expansion(t, lo, hi), u);
    }
  }

  /** The end marker as a new node, and the root over both. */
  lemma EndMarked(h0: Store, h: Store, t: Tree)
    requires Built(h0, h, t)
    ensures var h1 := CreateTree(h, -1, -1, EndOfRe); var e := Node(|h.cells|, EndOfRe, Null, Null);
      && TreeAt(h1, t, -1) && TreeAt(h1, e, -1) && Distinct(t) && Distinct(e) && Ids(t) !! Ids(e)
      && h1 == h0.(cells := h1.cells) && IsPatternTree(e)
      && (t.Node? ==> forall id: nat :: IsPatternTree(Node(id, Concat, t, e)))
  {
    var h1, e := CreateTree(h, -1, -1, EndOfRe), Node(|h.cells|, EndOfRe, Null, Null);
    TreeAtSlots(h, t, -1);
    CreateTreeCells(h, -1, -1, EndOfRe);
    TreeAtFrame(h, h1, t, -1);
    PlainNoEnd(t);
  }

  lemma CreateKeepsTables(h: Store, l: int, r: int, tok: Token)
    ensures var h' := CreateTree(h, l, r, tok); h' == h.(cells := h'.cells)
  {
  }

  lemma {:induction false} PlainNoEnd(t: Tree)
    requires Plain(t)
    ensures NoEnd(t)
  {
    if t.Node? { PlainNoEnd(t.left); PlainNoEnd(t.right); }
  }

  lemma OneToken(tokens: seq<PatternToken>, p: nat)
    requires p < |tokens|
    ensures tokens[p..p + 1] == [tokens[p]]
  {
  }

  lemma BracedField(tokens: seq<PatternToken>, p: nat, q: nat)
    requires p < q < |tokens| && tokens[p] == TOpenDup && tokens[q] == TCloseDup
    ensures tokens[p..q + 1] == [TOpenDup] + tokens[p + 1..q] + [TCloseDup]
  {
  }

  lemma BracedFields(tokens: seq<PatternToken>, p: nat, q: nat, r: nat)
    requires p < q < r < |tokens| && tokens[p] == TOpenDup && tokens[q] == TChar(COMMA) && tokens[r] == TCloseDup
    ensures tokens[p..r + 1] == [TOpenDup] + tokens[p + 1..q] + [TChar(COMMA)] + tokens[q + 1..r] + [TCloseDup]
  {
  }

  lemma ExactSpelled(s: seq<PatternToken>, f: seq<PatternToken>, lo: nat)
    requires s == [TOpenDup] + f + [TCloseDup] && FieldValue(f) == lo <= RE_DUP_MAX
    ensures SpellsDup(s, lo, lo)
  {
    assert SpellsExact(s, f, lo, lo);
  }

  lemma RangeSpelled(s: seq<PatternToken>, f: seq<PatternToken>, g: seq<PatternToken>, lo: nat, hi: int)
    requires s == [TOpenDup] + f + [TChar(COMMA)] + g + [TCloseDup] && FieldValue(g) == hi >= -1
    requires FieldValue(f) == lo || (FieldValue(f) == -1 && lo == 0)
    requires if hi == -1 then lo <= RE_DUP_MAX else lo <= hi <= RE_DUP_MAX
    ensures SpellsDup(s, lo, hi)
  {
    assert SpellsRange(s, f, g, lo, hi);
  }

  /** An ill-formed interval after `a` that may not be taken literally. */
  lemma DupFails(tokens: seq<PatternToken>, x: Syntax, e: Error, a0: Ast, a: Ast, s: Place, first: bool)
    requires Fits(tokens, x, a, s, first, false) && !a.Blank? && IsIntervalError(e)
    requires RepeatGoesOn(tokens, x, s, first, a0, a) && TokenAt(tokens, After(a, s).pos).TOpenDup?
    requires BadIntervalAt(tokens, x, After(a, s).pos, e)
    ensures RepeatDecided(tokens, x, s, first, a0, false, a) && Stops(tokens, x, e, Upto(a), s, first, false)
  {
    StopsAtBrace(tokens, x, e, a, s, first);
    RepeatFails(tokens, x, s, first, a0, a, a);
  }

  class Parser {
    const tokens: seq<PatternToken>
    const syntax: Syntax
    const dfa: Dfa
    var cur: nat              // cur_idx: the next token to fetch
    var token: PatternToken   // the lookahead
    ghost var pos: nat        // where the lookahead stands
    var completed: set<nat>   // completed_bkref_map
    var used: set<nat>        // used_bkref_map
    var nsub: nat             // re_nsub
    var nbackref: nat

    constructor (tokens: seq<PatternToken>, syntax: Syntax, dfa: Dfa)
      requires TokensOk(tokens)
      ensures this.tokens == tokens && this.syntax == syntax && this.dfa == dfa
      ensures cur == 0 && completed == {} && used == {} && nsub == 0 && nbackref == 0
    {
      this.tokens, this.syntax, this.dfa := tokens, syntax, dfa;
      cur, token, pos, completed, used, nsub, nbackref := 0, TEnd, 0, {}, {}, 0, 0;
    }

    /** The place in the pattern. */
    ghost function Here(): Place
      reads this
    {
      Place(pos, completed, nsub)
    }

    /** The lookahead is the token at `pos`, or a brace taken literally. */
    ghost predicate Ready()
      reads this
    {
      && TokensOk(tokens) && pos <= |tokens| && cur == (if pos < |tokens| then pos + 1 else pos)
      && (token == TokenAt(tokens, pos) || TakenLiterally())
    }

    ghost predicate TakenLiterally()
      reads this
    {
      token == TChar(OPEN_BRACE) && TokenAt(tokens, pos).TOpenDup? && BraceStays(tokens, syntax, pos)
    }

    /** At the start of an expression the lookahead is just the token; after one it is no
        operator any more. */
    ghost predicate ReadyFor(first: bool)
      reads this
    {
      Ready() && if first then token == TokenAt(tokens, pos) else !IsDupToken(token)
    }

    /** fetch_token; at the end of the pattern it stays there. */
    method FetchToken()
      requires TokensOk(tokens) && cur <= |tokens|
      modifies this`cur, this`token, this`pos
      ensures Ready() && pos == old(cur) && token == TokenAt(tokens, pos)
    {
      pos := cur;
      token := TokenAt(tokens, cur);
      if cur < |tokens| { cur := cur + 1; }
    }

    /** fetch_number */
    method FetchNumber() returns (num: int)
      requires Ready() && pos < |tokens|
      modifies this`cur, this`token, this`pos
      ensures Ready() && old(pos) < pos && token == TokenAt(tokens, pos) && EndsField(token)
      ensures num == if token.TEnd? then -2 else FieldValue(tokens[old(pos) + 1..pos])
      ensures FieldEnds(tokens, old(pos), pos)
    {
      ghost var p := pos;
      num := -1;
      while true
        invariant Ready() && p <= pos < |tokens| && num == FieldValue(tokens[p + 1..pos + 1])
        invariant forall k | p < k <= pos :: !EndsField(tokens[k])
        decreases |tokens| - pos
      {
        FetchToken();
        var c := CharOf(token);
        if token.TEnd? { return -2; }
        if token.TCloseDup? || token == TChar(COMMA) { break; }
        FieldValueNext(tokens[p + 1..pos], token);
        assert tokens[p + 1..pos + 1] == tokens[p + 1..pos] + [token];
        num := if !token.TChar? || c < 48 || 57 < c || num == -2 then -2
               else if num == -1 then c - 48
               else if num * 10 + c - 48 <= RE_DUP_MAX + 1 then num * 10 + c - 48 else RE_DUP_MAX + 1;
      }
    }


    /** The interval part of parse_dup_op: the two bounds up to the closing brace, an error,
        or, where the syntax allows it, a brace to be taken literally. */
    method ScanInterval() returns (scan: Scan)
      requires Ready() && token.TOpenDup?
      modifies this`cur, this`token, this`pos
      ensures Ready()
      ensures scan.Interval? ==>
        && old(pos) < pos < |tokens| && token == tokens[pos]
        && scan.lo <= RE_DUP_MAX && (scan.hi == -1 || scan.lo <= scan.hi <= RE_DUP_MAX)
        && SpellsDup(tokens[old(pos)..pos + 1], scan.lo, scan.hi)
      ensures scan.TakeLiterally? ==> pos == old(pos) && token == TChar(OPEN_BRACE) && BraceStays(tokens, syntax, pos)
      ensures scan.Bad? ==> IsIntervalError(scan.error) && BadIntervalAt(tokens, syntax, old(pos), scan.error)
    {
      hide FieldValue, NoIntervalAt, SpellsDup, SpellsExact, SpellsRange, LiteralBraceAt, FieldEnds, RunsOut, TooLarge;
      ghost var p := pos;
      var startIdx, end := cur, 0;
      var start := FetchNumber();
      ghost var q, e := pos, pos;
      ghost var f := tokens[p + 1..q];
      if start == -1 {
        if token == TChar(COMMA) {
          start := 0;
        } else {
          Rejected(tokens, p, q, e);
          NotLiteral(tokens, syntax, p, q, e);
          FieldsDecide(tokens, p, q, e);
          return Bad(BadBrace);
        }
      }
      if start != -2 {
        if token.TCloseDup? {
          end := start;
        } else {
          end := FetchNumber();
          e := pos;
        }
      }
      if start == -2 || end == -2 {
        Rejected(tokens, p, q, e);
        if !syntax.invalidIntervalOrd {
          FieldsDecide(tokens, p, q, e);
          return Bad(if token.TEnd? then Brace else BadBrace);
        }
        IsLiteral(tokens, p, q, e);
        cur, token, pos := startIdx, TChar(OPEN_BRACE), p;
        return TakeLiterally;
      }
      if (end != -1 && start > end) || !token.TCloseDup? {
        Rejected(tokens, p, q, e);
        NotLiteral(tokens, syntax, p, q, e);
        FieldsDecide(tokens, p, q, e);
        return Bad(BadBrace);
      }
      if RE_DUP_MAX < (if end == -1 then start else end) {
        Rejected(tokens, p, q, e);
        NotLiteral(tokens, syntax, p, q, e);
        FieldsDecide(tokens, p, q, e);
        return Bad(Size_);
      }
      scan := Interval(start, end);
      if e == q {
        BracedField(tokens, p, q);
        ExactSpelled(tokens[p..pos + 1], f, start);
      } else {
        BracedFields(tokens, p, q, e);
        RangeSpelled(tokens[p..pos + 1], f, tokens[q + 1..e], start, end);
      }
    }

    /** parse_dup_op. On an ill-formed interval it may instead take the brace literally and
        leave everything as it was. */
    method ParseDupOp(elem: int, ghost e: Tree) returns (r: Result, ghost u: Tree, ghost lo: nat, ghost hi: int)
      requires Ready() && IsDupToken(token) && elem == Ptr(e) && TreeAt(dfa.st, e, -1) && Distinct(e)
      modifies this`cur, this`token, this`pos, dfa
      ensures Ready()
      ensures r.Ok? ==> r.tree == Ptr(u)
      ensures r.Ok? && pos == old(pos) ==>
        u == e && dfa.st == old(dfa.st) && token == TChar(OPEN_BRACE) && BraceStays(tokens, syntax, pos)
      ensures r.Ok? && pos != old(pos) ==>
        && old(pos) < pos && SpellsDup(tokens[old(pos)..pos], lo, hi) && (hi == -1 || lo <= hi) && SameTokens(Expansion(e, lo, hi), u)
        && Owned(old(dfa.st), dfa.st, Ids(e)) && OwnTree(old(dfa.st), dfa.st, u, Ids(e))
        && token == TokenAt(tokens, pos)
      ensures r.Fail? ==>
        && IsIntervalError(r.error) && TokenAt(tokens, old(pos)).TOpenDup?
        && BadIntervalAt(tokens, syntax, old(pos), r.error)
    {
      hide SameTokens, Expansion, Owned, OwnTree, TreeAt, Distinct, BadIntervalAt, BraceStays;
      ghost var p := pos;
      u, lo, hi := e, 0, 0;
      var start, end;
      if token.TOpenDup? {
        var scan := ScanInterval();
        match scan {
          case Bad(error) => return Fail(error), u, lo, hi;
          case TakeLiterally => return Ok(elem), u, lo, hi;
          case Interval(l, h) => start, end := l, h;
        }
      } else {
        start := if token.TPlus? then 1 else 0;
        end := if token.TQuestion? then 1 else -1;
        OneToken(tokens, p);
      }
      lo, hi := start, end;
      hide SpellsDup;
      FetchToken();
      var tree;
      tree, u := ExpandDup(dfa, elem, start, end, e);
      r := Ok(tree);
    }

    /** What a successful parsing method leaves, relative to the place at its start. */
    ghost predicate Done(s: Place, h0: Store, a: Ast, t: Tree, first: bool, nested: bool)
      reads this, dfa
    {
      && Ready() && Fits(tokens, syntax, a, s, first, nested) && Here() == After(a, s)
      && Renders(t, a) && Built(h0, dfa.st, t)
    }

    /** The group node of parse_sub_exp. */
    method MakeGroup(tree: int, k: nat, ghost h0: Store, ghost t: Tree) returns (r: Result, ghost u: Tree)
      requires Built(h0, dfa.st, t) && tree == Ptr(t)
      modifies dfa
      ensures r == Ok(Ptr(u)) && Built(h0, dfa.st, u) && u.Node? && u.tok == Subexp(k) && u.left == t && u.right.Null?
    {
      hide Built, TreeAt, Distinct;
      BuiltGroup(h0, dfa.st, t, k);
      var root := dfa.NewTree(tree, -1, Subexp(k), t, Null, -1, -1);
      r, u := Ok(root), Node(root, Subexp(k), t, Null);
    }

    /** One more part of a branch. A part without a tree needs no node. */
    method JoinThen(tree: int, expr: int, ghost a: Ast, ghost b: Ast, ghost h0: Store, ghost h1: Store, ghost t: Tree, ghost u: Tree)
      returns (r: int, ghost w: Tree)
      requires Built(h0, h1, t) && Built(h1, dfa.st, u) && tree == Ptr(t) && expr == Ptr(u) && Renders(t, a) && Renders(u, b)
      modifies dfa
      ensures Built(h0, dfa.st, w) && Renders(w, Then(a, b)) && r == Ptr(w)
    {
      hide Built, TreeAt, Distinct, Renders;
      r, w := tree, t;
      RendersThen(t, u, a, b, |dfa.st.cells|);
      BuiltTwice(h0, h1, dfa.st, t, u);
      if tree != -1 && expr != -1 {
        BuiltConcat(h0, dfa.st, t, u);
        r := dfa.NewTree(tree, expr, Concat, t, u, -1, -1);
        w := Node(r, Concat, t, u);
      } else if tree == -1 {
        r, w := expr, u;
      }
    }

    /** The node for one more alternative. */
    method JoinOr(tree: int, branch: int, ghost a: Ast, ghost b: Ast, ghost h0: Store, ghost h1: Store, ghost t: Tree, ghost u: Tree)
      returns (r: int, ghost w: Tree)
      requires Built(h0, h1, t) && Built(h1, dfa.st, u) && tree == Ptr(t) && branch == Ptr(u) && Renders(t, a) && Renders(u, b)
      modifies dfa
      ensures Built(h0, dfa.st, w) && Renders(w, Or(a, b)) && r == Ptr(w)
    {
      hide Built, TreeAt, Distinct, Renders;
      RendersOr(t, u, a, b, |dfa.st.cells|);
      BuiltTwice(h0, h1, dfa.st, t, u);
      BuiltAlt(h0, dfa.st, t, u);
      r := dfa.NewTree(tree, branch, Alt, t, u, -1, -1);
      w := Node(r, Alt, t, u);
    }

    /** parse_sub_exp. It leaves the lookahead on the closing parenthesis. */
    method ParseSubExp(nest: nat, ghost first: bool) returns (r: Result, ghost a: Ast, ghost t: Tree, ghost z: Prefix)
      requires ReadyFor(first) && token.TOpen? && nest > 0
      modifies this, dfa
      ensures r.Ok? ==> Ready() && old(pos) < pos < |tokens| && token.TClose? && r.tree == Ptr(t) && Level(a) == 0 && !a.Blank?
      ensures r.Ok? ==> var s := old(Here());
        Fits(tokens, syntax, a, s, first, false) && After(a, s) == Here().(pos := pos + 1)
      ensures r.Ok? ==> Renders(t, a) && Built(old(dfa.st), dfa.st, t) && used == old(used) + Referred(a)
      ensures AtomDecided(tokens, syntax, old(Here()), first, r.Ok?, a)
      ensures r.Fail? ==> Stops(tokens, syntax, r.error, z, old(Here()), first, false) && OfExpression(z)
      decreases |tokens| - pos, 0
    {
      hide Fits, AtomDecided, PatternDecided, Stops, Renders, Built, TreeAt, Distinct, BraceStays;
      ghost var s, h0 := Here(), dfa.st;
      var curNsub := nsub;
      a, t, z := Blank, Null, Upto(Blank);
      nsub := nsub + 1;
      FetchToken();
      if token.TClose? {
        FitsEmptyGroup(tokens, syntax, s, first);
        AtomEmptyGroup(tokens, syntax, s, first);
        BuiltNull(dfa.st);
        r, a := Ok(-1), EmptyGroup(curNsub);
      } else {
        r, a, t, z := ParseRegExp(nest);
        AtomGroup(tokens, syntax, s, first, r.Ok?, a, a);
        if r.Fail? {
          StopsInside(tokens, syntax, r.error, z, s, first);
          z := Inside(z);
          return;
        }
        if !token.TClose? {
          StopsUnclosed(tokens, syntax, a, s, first);
          return Fail(Paren), a, t, Inside(Upto(a));
        }
        FitsGroup(tokens, syntax, a, s, first);
        a := Group(curNsub, a);
      }
      ghost var c1 := completed;
      if curNsub <= 8 {
        completed := completed + {curNsub};
      }
      assert completed == c1 + Nameable(curNsub);
      ghost var u := t;
      r, t := MakeGroup(r.tree, curNsub, h0, u);
      RendersGroup(u, if a.Group? then a.body else Blank, curNsub, t.id);
    }

    /** create_token_tree for a token that is a leaf. */
    method LeafTree(tok: Token) returns (tree: int, ghost t: Tree)
      requires tok.Character? || tok.SimpleBracket? || tok.Period? || tok.BackRef?
      modifies dfa
      ensures t == Node(|old(dfa.st).cells|, tok, Null, Null) && tree == t.id && Built(old(dfa.st), dfa.st, t)
    {
      BuiltNull(dfa.st);
      BuiltNode(dfa.st, dfa.st, Null, Null, tok);
      tree := dfa.NewTree(-1, -1, tok, Null, Null, -1, -1);
      t := Node(tree, tok, Null, Null);
    }

    /** The cases of parse_expression that make a leaf. A back-reference must name a group in
        completed_bkref_map; operators that reach this point are taken as characters. */
    method ParseLeaf(ghost first: bool) returns (r: Result, ghost a: Ast, ghost t: Tree)
      requires ReadyFor(first) && !token.TAlt? && !token.TEnd? && !token.TOpen?
      requires IsDupToken(token) ==> LiteralOk(syntax, token)
      modifies this`used, this`nbackref, dfa
      ensures r.Ok? ==> pos < |tokens| && r.tree == Ptr(t) && Level(a) == 0 && !a.Blank?
      ensures r.Ok? ==> Fits(tokens, syntax, a, Here(), first, false) && After(a, Here()) == Here().(pos := pos + 1)
      ensures r.Ok? ==> Renders(t, a) && Built(old(dfa.st), dfa.st, t) && used == old(used) + Referred(a)
      ensures AtomDecided(tokens, syntax, Here(), first, r.Ok?, a)
      ensures r.Fail? ==> Stops(tokens, syntax, r.error, Upto(Blank), Here(), first, false)
    {
      hide Fits, AtomDecided, Stops, Renders, Built, LiteralBraceAt;
      a, t := Blank, Null;
      var tree;
      FitsAtom(tokens, syntax, Here(), first);
      if token.TLeaf? {
        RendersLeaf(token.tok, |dfa.st.cells|);
        a := Leaf(token.tok);
        tree, t := LeafTree(token.tok);
      } else if token.TBackRef? {
        if token.idx !in completed {
          AtomNone(tokens, syntax, Here(), first, a);
          StopsHere(tokens, syntax, SubReg, Here(), first, false);
          return Fail(SubReg), a, t;
        }
        used := used + {token.idx};
        RendersLeaf(BackRef(token.idx), |dfa.st.cells|);
        a := Ref(token.idx);
        tree, t := LeafTree(BackRef(token.idx));
        nbackref := nbackref + 1;
      } else {
        if token.TClose? && !syntax.unmatchedRightParenOrd {
          AtomNone(tokens, syntax, Here(), first, a);
          StopsHere(tokens, syntax, RightParen, Here(), first, false);
          return Fail(RightParen), a, t;
        }
        RendersLeaf(Character(CharOf(token)), |dfa.st.cells|);
        a := if token == tokens[pos] then Literal(token) else LeftBrace;
        tree, t := LeafTree(Character(CharOf(token)));
      }
      AtomSame(tokens, syntax, Here(), first, a);
      r := Ok(tree);
    }

    /** The loop of parse_expression over the operators that follow an atom. */
    method ParseDups(tree: int, ghost a0: Ast, ghost t0: Tree, ghost s: Place, ghost h0: Store, ghost first: bool)
      returns (r: Result, ghost a: Ast, ghost t: Tree, ghost z: Prefix)
      requires Done(s, h0, a0, t0, first, false) && tree == Ptr(t0) && Level(a0) == 0 && !a0.Blank?
      requires token == TokenAt(tokens, pos)
      modifies this`cur, this`token, this`pos, dfa
      ensures r.Ok? ==> Done(s, h0, a, t, first, false) && r.tree == Ptr(t) && Level(a) <= 1 && !a.Blank?
      ensures r.Ok? ==> ReadyFor(false) && Referred(a) == Referred(a0) && ClearOfDup(a)
      ensures RepeatDecided(tokens, syntax, s, first, a0, r.Ok?, a) && (r.Ok? ==> old(pos) <= pos)
      ensures r.Fail? ==> Stops(tokens, syntax, r.error, z, s, first, false) && OfExpression(z)
    {
      hide Fits, RepeatGoesOn, RepeatDecided, Stops, BadIntervalAt, BraceStays, SpellsDup;
      hide Renders, Built, Owned, OwnTree, SameTokens, Expansion, TreeAt, Distinct;
      r, a, t, z := Ok(tree), a0, t0, Upto(a0);
      RepeatStarts(tokens, syntax, s, first, a0);
      while IsDupToken(token)
        invariant Done(s, h0, a, t, first, false) && r.Ok? && r.tree == Ptr(t) && Level(a) <= 1 && !a.Blank?
        invariant Referred(a) == Referred(a0) && ClearOfDup(a)
        invariant RepeatGoesOn(tokens, syntax, s, first, a0, a) && old(pos) <= pos
        decreases |tokens| - pos, if IsDupToken(token) then 1 else 0
      {
        ghost var q, e, h := pos, t, dfa.st;
        ghost var lo, hi;
        BuiltAt(h0, dfa.st, t);
        r, t, lo, hi := ParseDupOp(r.tree, e);
        if r.Fail? {
          DupFails(tokens, syntax, r.error, a0, a, s, first);
          return r, a, t, Upto(a);
        }
        if pos != q {
          BuiltDup(h0, h, dfa.st, e, t, lo, hi);
          RendersRepeat(e, t, a, lo, hi, tokens[q..pos]);
          FitsRepeat(tokens, syntax, a, s, first, pos, lo, hi);
          RepeatNext(tokens, syntax, s, first, a0, a, pos, lo, hi);
          a := Repeat(a, lo, hi, tokens[q..pos]);
        }
        if syntax.contextInvalidDup && (token.TStar? || token.TOpenDup?) {
          RepeatTwice(tokens, syntax, s, first, a0, a, a);
          StopsAtOperator(tokens, syntax, a, s, first);
          return Fail(BadRepeat), a, t, Operator(a.body, lo, hi, a.spelling);
        }
      }
      RepeatEnds(tokens, syntax, s, first, a0, a);
    }

    /** Where the syntax forbids it, no operator comes after a repetition. */
    ghost predicate ClearOfDup(a: Ast)
      reads this
    {
      syntax.contextInvalidDup && EndsInRepeat(a) ==> !IsStarOrBrace(TokenAt(tokens, pos))
    }

    /** The case of parse_expression that is a group, or one that makes a leaf. */
    method ParseAtom(nest: nat, ghost first: bool) returns (r: Result, ghost a: Ast, ghost t: Tree, ghost z: Prefix)
      requires ReadyFor(first) && !token.TAlt? && !token.TEnd? && (IsDupToken(token) ==> LiteralOk(syntax, token))
      modifies this, dfa
      ensures r.Ok? ==> Ready() && old(pos) <= pos < |tokens| && r.tree == Ptr(t) && Level(a) == 0 && !a.Blank?
      ensures r.Ok? ==> var s := old(Here());
        Fits(tokens, syntax, a, s, first, false) && After(a, s) == Here().(pos := pos + 1)
      ensures r.Ok? ==> Renders(t, a) && Built(old(dfa.st), dfa.st, t) && used == old(used) + Referred(a)
      ensures AtomDecided(tokens, syntax, old(Here()), first, r.Ok?, a)
      ensures r.Fail? ==> Stops(tokens, syntax, r.error, z, old(Here()), first, false) && OfExpression(z)
      decreases |tokens| - pos, 1
    {
      hide Fits, AtomDecided, Stops, Renders, Built, BraceStays;
      if token.TOpen? {
        r, a, t, z := ParseSubExp(nest + 1, first);
      } else {
        z := Upto(Blank);
        r, a, t := ParseLeaf(first);
      }
    }

    /** The case of parse_expression that passes over an operator. */
    method ParsePast(nest: nat) returns (r: Result, ghost a: Ast, ghost t: Tree, ghost z: Prefix)
      requires ReadyFor(true) && PassedOver(syntax, token)
      modifies this, dfa
      ensures r.Ok? ==> Done(old(Here()), old(dfa.st), a, t, true, false) && r.tree == Ptr(t)
      ensures r.Ok? ==> a.Skip? && ReadyFor(false) && ClearOfDup(a) && used == old(used) + Referred(a) && old(pos) < pos
      ensures ExpressionDecided(tokens, syntax, old(Here()), true, r.Ok?, a)
      ensures r.Fail? ==> Stops(tokens, syntax, r.error, z, old(Here()), true, false) && OfExpression(z)
      decreases |tokens| - pos, 0
    {
      hide Fits, ExpressionDecided, Stops, Renders, Built, BraceStays;
      ghost var s := Here();
      FetchToken();
      r, a, t, z := ParseExpression(nest, true);
      ExpressionSkip(tokens, syntax, s, r.Ok?, a);
      if r.Ok? {
        FitsSkip(tokens, syntax, a, s);
        RendersSkip(t, a, tokens[s.pos]);
      } else {
        StopsPast(tokens, syntax, r.error, z, s);
      }
      a, z := Skip(tokens[s.pos], a), Past(tokens[s.pos], z);
    }

    /** parse_expression */
    method ParseExpression(nest: nat, ghost first: bool) returns (r: Result, ghost a: Ast, ghost t: Tree, ghost z: Prefix)
      requires ReadyFor(first)
      modifies this, dfa
      ensures r.Ok? ==> Done(old(Here()), old(dfa.st), a, t, first, false) && r.tree == Ptr(t)
      ensures r.Ok? ==> Level(a) <= (if first then 2 else 1) && ReadyFor(false) && ClearOfDup(a) && used == old(used) + Referred(a)
      ensures r.Ok? ==> if a.Blank? then token == old(token) && EndsBranch(token, false) else old(pos) < pos
      ensures r.Ok? && EndsBranch(old(token), false) ==> a.Blank?
      ensures ExpressionDecided(tokens, syntax, old(Here()), first, r.Ok?, a)
      ensures r.Fail? ==> Stops(tokens, syntax, r.error, z, old(Here()), first, false) && OfExpression(z)
      decreases |tokens| - pos, 2
    {
      hide Fits, AtomDecided, RepeatDecided, ExpressionDecided, Stops, Renders, Built, BraceStays;
      ghost var s, h0 := Here(), dfa.st;
      a, t, z := Blank, Null, Upto(Blank);
      if token.TAlt? || token.TEnd? {
        FitsBlank(tokens, syntax, s, first, false);
        ExpressionBlank(tokens, syntax, s, first);
        RendersBlank();
        BuiltNull(dfa.st);
        return Ok(-1), a, t, z;
      }
      if IsDupToken(token) {
        if (token.TOpenDup? && syntax.contextInvalidDup) || syntax.contextInvalidOps {
          AtomNone(tokens, syntax, s, first, a);
          ExpressionAtom(tokens, syntax, s, first, false, a, false, a);
          StopsHere(tokens, syntax, BadRepeat, s, first, false);
          return Fail(BadRepeat), a, t, z;
        }
        if syntax.contextIndepOps {
          r, a, t, z := ParsePast(nest);
          return;
        }
      }
      r, a, t, z := ParseAtom(nest, first);
      if r.Fail? {
        ExpressionAtom(tokens, syntax, s, first, false, a, false, a);
        return;
      }
      ghost var a0 := a;
      FetchToken();
      r, a, t, z := ParseDups(r.tree, a, t, s, h0, first);
      ExpressionAtom(tokens, syntax, s, first, true, a0, r.Ok?, a);
    }

    /** parse_branch */
    method ParseBranch(nest: nat) returns (r: Result, ghost a: Ast, ghost t: Tree, ghost z: Prefix)
      requires ReadyFor(true) && (nest > 0 ==> !token.TClose?)
      modifies this, dfa
      ensures r.Ok? ==> Done(old(Here()), old(dfa.st), a, t, true, nest > 0) && r.tree == Ptr(t) && Level(a) <= 3
      ensures r.Ok? ==> EndsBranch(token, nest > 0) && used == old(used) + Referred(a) && (token.TClose? ==> !a.Blank?)
      ensures BranchDecided(tokens, syntax, old(Here()), nest > 0, r.Ok?, a)
      ensures r.Fail? ==> Stops(tokens, syntax, r.error, z, old(Here()), true, nest > 0)
      decreases |tokens| - pos, 3
    {
      hide Fits, ExpressionDecided, BranchGoesOn, BranchDecided, Stops, Renders, Built, TreeAt, Distinct, BraceStays;
      ghost var s, h0, u0, nested := Here(), dfa.st, used, nest > 0;
      r, a, t, z := ParseExpression(nest, true);
      BranchStarts(tokens, syntax, s, nested, r.Ok?, a, a);
      if r.Fail? {
        StopsNested(tokens, syntax, r.error, z, s, true, nested);
        return;
      }
      FitsNested(tokens, syntax, a, s, true, nested);
      var tree := r.tree;
      while !token.TAlt? && !token.TEnd? && (nest == 0 || !token.TClose?)
        invariant Done(s, h0, a, t, true, nested) && r.Ok? && tree == Ptr(t) && Level(a) <= 3
        invariant ReadyFor(false) && ClearOfDup(a) && used == u0 + Referred(a) && (a.Blank? ==> EndsBranch(token, false))
        invariant BranchGoesOn(tokens, syntax, s, nested, a)
        decreases |tokens| - pos
      {
        ghost var s1, h1, b, u := Here(), dfa.st, Blank, Null;
        r, b, u, z := ParseExpression(nest, false);
        BranchNext(tokens, syntax, s, nested, a, r.Ok?, b, a);
        if r.Fail? {
          StopsNested(tokens, syntax, r.error, z, s1, false, nested);
          StopsBehind(tokens, syntax, r.error, a, z, s, nested);
          z := Behind(a, z);
          return;
        }
        FitsNested(tokens, syntax, b, s1, false, nested);
        FitsThen(tokens, syntax, a, b, s, nested);
        tree, t := JoinThen(tree, r.tree, a, b, h0, h1, t, u);
        a := Then(a, b);
      }
      BranchEnds(tokens, syntax, s, nested, a);
      r := Ok(tree);
    }

    /** One turn of the loop of parse_reg_exp: what follows a bar. It is parsed with the groups
        closed before the first alternative, and closes groups in addition to the others. */
    method ParseAlternative(nest: nat, initial: set<nat>, ghost a: Ast, ghost s: Place)
      returns (r: Result, ghost b: Ast, ghost u: Tree, ghost z: Prefix)
      requires ReadyFor(true) && token.TAlt? && Here() == After(a, s) && initial == s.closed
      modifies this, dfa
      ensures r.Ok? ==> var e := After(b, NextBranch(a, s));
        Ready() && Here() == e.(closed := e.closed + Closed(a, s.closed)) && old(pos) < pos
      ensures r.Ok? ==> Fits(tokens, syntax, b, NextBranch(a, s), true, nest > 0) && Level(b) <= 3
      ensures r.Ok? ==> Renders(u, b) && Built(old(dfa.st), dfa.st, u) && r.tree == Ptr(u)
      ensures r.Ok? ==> EndsBranch(token, nest > 0) && used == old(used) + Referred(b)
      ensures BranchDecided(tokens, syntax, NextBranch(a, s), nest > 0, r.Ok?, b)
      ensures r.Fail? ==> Stops(tokens, syntax, r.error, z, NextBranch(a, s), true, nest > 0)
      decreases |tokens| - pos, 3
    {
      hide Fits, BranchDecided, Stops, Renders, Built, BraceStays;
      ghost var s1 := NextBranch(a, s);
      r, b, u, z := Ok(-1), Blank, Null, Upto(Blank);
      ClosedGrows(a, s.closed);
      FetchToken();
      if !token.TAlt? && !token.TEnd? && (nest == 0 || !token.TClose?) {
        var accumulated := completed;
        completed := initial;
        r, b, u, z := ParseBranch(nest);
        if r.Fail? { return; }
        completed := completed + accumulated;
      } else {
        FitsBlank(tokens, syntax, s1, true, nest > 0);
        BranchBlank(tokens, syntax, s1, nest > 0);
        RendersBlank();
        BuiltNull(dfa.st);
      }
    }

    /** parse_reg_exp. Each alternative starts from the groups closed before the first. */
    method ParseRegExp(nest: nat) returns (r: Result, ghost a: Ast, ghost t: Tree, ghost z: Prefix)
      requires ReadyFor(true) && (nest > 0 ==> !token.TClose?)
      modifies this, dfa
      ensures r.Ok? ==> Done(old(Here()), old(dfa.st), a, t, true, nest > 0) && r.tree == Ptr(t)
      ensures r.Ok? ==> Closes(token, nest > 0) && used == old(used) + Referred(a) && (token.TClose? ==> !a.Blank?)
      ensures PatternDecided(tokens, syntax, old(Here()), nest > 0, r.Ok?, a)
      ensures r.Fail? ==> Stops(tokens, syntax, r.error, z, old(Here()), true, nest > 0)
      decreases |tokens| - pos, 4
    {
      hide Fits, BranchDecided, PatternGoesOn, PatternDecided, Stops, Renders, Built, TreeAt, Distinct, BraceStays;
      ghost var s, h0, u0, nested := Here(), dfa.st, used, nest > 0;
      var initial := completed;
      r, a, t, z := ParseBranch(nest);
      PatternStarts(tokens, syntax, s, nested, r.Ok?, a, a);
      if r.Fail? { return; }
      var tree := r.tree;
      while token.TAlt?
        invariant Done(s, h0, a, t, true, nested) && r.Ok? && tree == Ptr(t) && initial == s.closed
        invariant used == u0 + Referred(a) && EndsBranch(token, nested) && (token.TClose? ==> !a.Blank?)
        invariant PatternGoesOn(tokens, syntax, s, nested, a)
        decreases |tokens| - pos
      {
        ghost var h1, b, u := dfa.st, Blank, Null;
        r, b, u, z := ParseAlternative(nest, initial, a, s);
        PatternNext(tokens, syntax, s, nested, a, r.Ok?, b, a);
        if r.Fail? {
          StopsBeside(tokens, syntax, r.error, a, z, s, nested);
          z := Beside(a, z);
          return;
        }
        FitsOr(tokens, syntax, a, b, s, nested);
        tree, t := JoinOr(tree, r.tree, a, b, h0, h1, t, u);
        a := Or(a, b);
      }
      PatternEnds(tokens, syntax, s, nested, a);
      r := Ok(tree);
    }

    /** parse. It succeeds exactly for the patterns that have a syntax tree, and finds the
        only one. Otherwise the pattern reads up to a token to which the error code applies. */
    method Parse() returns (r: Result, ghost a: Ast, ghost t: Tree, ghost z: Prefix)
      requires TokensOk(tokens) && cur == 0 && completed == {} && used == {} && nsub == 0
      modifies this, dfa
      ensures r.Ok? <==> exists y :: Spells(tokens, syntax, y)
      ensures forall y | Spells(tokens, syntax, y) :: y == a
      ensures r.Ok? ==> Spells(tokens, syntax, a) && completed == Closed(a, {}) && nsub == NextNumber(a, 0) && used == Referred(a)
      ensures r.Ok? ==> SameTokens(Whole(a), t) && IsPatternTree(t) && r.tree == t.id && TreeAt(dfa.st, t, -1) && Distinct(t)
      ensures r.Ok? ==> dfa.st == old(dfa.st).(cells := dfa.st.cells)
      ensures r.Fail? ==> Stops(tokens, syntax, r.error, z, Beginning, true, false)
    {
      hide Fits, PatternDecided, Stops, Renders, SameTokens, Whole, Built, TreeAt, Distinct, IsPatternTree, BraceStays;
      ghost var h0 := dfa.st;
      FetchToken();
      r, a, t, z := ParseRegExp(0);
      AllDecided(tokens, syntax, r.Ok?, a);
      if r.Fail? { return; }
      assert pos == |tokens| && Spells(tokens, syntax, a);
      EndMarked(h0, dfa.st, t);
      RendersWhole(t, a, |dfa.st.cells|, |dfa.st.cells| + 1);
      var eor := dfa.NewTree(-1, -1, EndOfRe, Null, Null, -1, -1);
      ghost var e := Node(eor, EndOfRe, Null, Null);
      if r.tree != -1 {
        ghost var h1 := dfa.st;
        var root := dfa.NewTree(r.tree, eor, Concat, t, e, -1, -1);
        CreateKeepsTables(h1, r.tree, eor, Concat);
        t := Node(root, Concat, t, e);
        r := Ok(root);
      } else {
        t, r := e, Ok(eor);
      }
    }
  }

  datatype Scan = Interval(lo: nat, hi: int) | TakeLiterally | Bad(error: Error)
}
