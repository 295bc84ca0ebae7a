/** re_compile_internal: from the tokens of a pattern to its automaton and closures. */
module Compile {
  import opened RegexTree
  import opened TreeStore
  import opened GroupPasses
  import opened Lowering
  import opened NfaPasses
  import opened NfaLanguage
  import opened NfaTables
  import opened Patterns
  import opened PatternParser
  import opened Readings
  import PatternErrors
  import opened GroupOrder
  import opened Shapes
  import Analyze
  import Closures

  // ----- What the closures are good for -----

  /** A run follows epsilon edges to a node of the closure and consumes from there. */
  lemma {:induction false} RunLeavesClosure(n: Nfa, m: Matcher, i: int, p: nat, q: nat, steps: nat) returns (x: int)
    requires Run(n, m, i, p, q, steps)
    ensures Closures.Reach(n, i, x) && 0 <= x < |n.nodes| && !IsEpsilonNode(n.nodes[x]) && Accepts(n, m, x, p, q)
    decreases steps
  {
    if IsEpsilonNode(n.nodes[i]) {
      var e := EpsilonMove(n, m, i, p, q, steps);
      x := RunLeavesClosure(n, m, e, p, q, steps - 1);
      Closures.ReachStep(n, i, e, x);
    } else {
      x := i;
      Closures.ReachSelf(n, i, {});
    }
  }

  lemma {:induction false} WalkThenRun(n: Nfa, m: Matcher, w: seq<int>, i: int, x: int, p: nat, q: nat)
    requires Closures.IsWalk(n, w, i, x, {}) && Accepts(n, m, x, p, q) && |n.nodes| == |n.nexts| == |n.edests|
    ensures Accepts(n, m, i, p, q)
    decreases |w|
  {
    if |w| > 1 {
      assert Closures.EpsilonEdge(n, w[0], w[1]);
      assert Closures.IsWalk(n, w[1..], w[1], x, {});
      WalkThenRun(n, m, w[1..], w[1], x, p, q);
      var steps: nat :| Run(n, m, w[1], p, q, steps);
      BeforeEpsilon(n, m, i, w[1], p, q, steps);
    }
  }

  /** A node accepts exactly what some consuming or final node of its closure accepts. */
  lemma AcceptsThroughClosure(n: Nfa, m: Matcher, i: int, c: seq<int>, p: nat, q: nat)
    requires |n.nodes| == |n.nexts| == |n.edests| && Closures.ClosureOf(n, i, c)
    ensures Accepts(n, m, i, p, q) <==>
      exists x | x in c :: 0 <= x < |n.nodes| && !IsEpsilonNode(n.nodes[x]) && Accepts(n, m, x, p, q)
  {
    if Accepts(n, m, i, p, q) {
      var steps: nat :| Run(n, m, i, p, q, steps);
      var x := RunLeavesClosure(n, m, i, p, q, steps);
      assert x in c;
    }
    if x :| x in c && 0 <= x < |n.nodes| && !IsEpsilonNode(n.nodes[x]) && Accepts(n, m, x, p, q) {
      var w :| Closures.IsWalk(n, w, i, x, {});
      WalkThenRun(n, m, w, i, x, p, q);
    }
  }

  // ----- The whole compilation -----

  /** From node `start` the automaton accepts, for every matcher that gives groups nested
      directly in each other the same text, exactly the spans that the pattern matches. */
  ghost predicate Recognizes(n: Nfa, start: int, a: Ast) {
    forall m: Matcher, p: nat, q: nat | AgreesOnNested(m, Whole(a)) ::
      Accepts(n, m, start, p, q) <==> AstMatches(m, a, p, q)
  }

  /** The number that group `k` has after compilation. */
  ghost function NumberOf(a: Ast, k: nat): nat { Final(Outers(Whole(a)), k) }

  /** The automaton has a back-reference for every reference that is left of the pattern, and
      no others. It has OPEN and CLOSE for the group exactly if the group is left; without
      no_sub it has them for every group that is left, and never for another. subexp_map
      gives the number of each group. */
  ghost predicate GroupsServed(h: Store, a: Ast, noSub: bool) {
    && (forall k: nat :: BackRef(k) in h.nodes <==> exists r :: r in LeftRefs(a) && k == NumberOf(a, r))
    && (forall r | r in LeftRefs(a) :: OpenSubexp(NumberOf(a, r)) in h.nodes <==> r in LeftGroups(a))
    && (forall k: nat :: OpenSubexp(k) in h.nodes <==> CloseSubexp(k) in h.nodes)
    && (forall k: nat | OpenSubexp(k) in h.nodes :: k in LeftGroups(a) && NumberOf(a, k) == k)
    && (!noSub ==> forall k | k in LeftGroups(a) :: OpenSubexp(NumberOf(a, k)) in h.nodes)
    && (forall k | 0 <= k < |h.subexpMap| :: h.subexpMap[k] == NumberOf(a, k))
  }

  /** What a pattern with a syntax tree makes certain about its tree. */
  lemma TreeOfPattern(tokens: seq<PatternToken>, x: Syntax, a: Ast)
    requires TokensOk(tokens) && Spells(tokens, x, a)
    ensures BoundsOk(a) && LeavesOk(a) && Numbered(a, 0) && WellFormed(Whole(a)) && NoBrackets(Whole(a))
    ensures TreeMeans(Whole(a), a) && InOrder(Whole(a), {}, Closed(a, {}), 0, NextNumber(a, 0))
    ensures Groups(Whole(a)) == LeftGroups(a) && Refs(Whole(a)) == LeftRefs(a)
  {
    hide InOrder, TreeMeans, WellFormed, NoBrackets, Whole, Closed, LeftGroups, LeftRefs, Groups, Refs;
    ReadsOk(tokens, x, a, Beginning.pos, true, false);
    WholeMeans(a);
    WholeInOrder(a);
    WholeSets(a);
    WholeWellFormed(a);
  }

  /** A group gets the number of one that is left too and has the same body. */
  lemma NumberSameBody(tokens: seq<PatternToken>, x: Syntax, a: Ast, m: Matcher, k: nat)
    requires TokensOk(tokens) && Spells(tokens, x, a) && k in LeftGroups(a)
    ensures NumberOf(a, k) in LeftGroups(a) && SameBody(BodiesOf(m, a), k, NumberOf(a, k))
  {
    hide InOrder, TreeMeans, WellFormed, NoBrackets, Whole, Closed, LeftGroups, LeftRefs, Groups, Refs;
    hide BodiesOf, Spells, HasBodies, Outers, ClosedUnderNesting, Resolved;
    var t := Whole(a);
    var c := iset y: nat | SameBody(BodiesOf(m, a), k, y);
    TreeOfPattern(tokens, x, a);
    WholeBodies(m, a);
    NestedSameBody(m, t, BodiesOf(m, a), k);
    OutersNest(t, c);
    InOrderSeparates(t, {}, Closed(a, {}), 0, NextNumber(a, 0));
    FinalGroups(t);
    assert k in c;
  }

  lemma InOrderSeparates(t: Tree, c0: set<nat>, c: set<nat>, n0: nat, n: nat)
    requires InOrder(t, c0, c, n0, n)
    ensures Remaining(t) !! Struck(t)
  {
  }

  /** Exactly the patterns that have a syntax tree compile. Such a pattern compiles to an
      automaton that recognizes what its syntax tree means, with the OPEN, CLOSE and
      back-reference nodes that its groups and references ask for; and the closure of every
      node is what it reaches along epsilon edges. */
  method Compile(tokens: seq<PatternToken>, syntax: Syntax, noSub: bool)
    returns (r: Result, dfa: Dfa, start: int, eclosures: array<Closures.Slot>, ghost a: Ast, ghost z: PatternErrors.Prefix)
    requires TokensOk(tokens)
    ensures r.Ok? <==> exists y :: Spells(tokens, syntax, y)
    ensures r.Fail? ==> PatternErrors.Stops(tokens, syntax, r.error, z, Beginning, true, false)
    ensures r.Ok? ==> Spells(tokens, syntax, a) && Recognizes(Automaton(dfa.st), start, a) && GroupsServed(dfa.st, a, noSub)
    ensures r.Ok? ==> |dfa.st.subexpMap| == NextNumber(a, 0) && RowsOk(Automaton(dfa.st))
    ensures r.Ok? ==> Analyze.MarksAre(dfa.st, Whole(a), noSub, Referred(a))
    ensures r.Ok? ==> eclosures.Length == |dfa.st.nodes| && 0 <= start < |dfa.st.nodes|
    ensures r.Ok? ==> forall i | 0 <= i < eclosures.Length ::
      eclosures[i].Done? && Closures.IsClosure(Automaton(dfa.st), i, eclosures[i].closure)
  {
    hide IsPatternTree, TreeAt, Distinct, Spells, PatternErrors.Stops, SameTokens, Whole, GroupsServed;
    hide Analyze.Compiled, Analyze.MarksAre, InOrder, NoBrackets, Closures.IsClosure, Closures.GraphOk, Recognizes, RowsOk;
    dfa := new Dfa(noSub, 0);
    start, eclosures := -1, new Closures.Slot[0];
    var parser := new Parser(tokens, syntax, dfa);
    ghost var t;
    r, a, t, z := parser.Parse();
    if r.Fail? { return; }
    ghost var h := dfa.st;
    dfa.st := dfa.st.(usedBkref := parser.used);
    Analyze.CellsDecideTree(h, dfa.st, t, -1);
    ParsedTree(tokens, syntax, a, t);
    ghost var u := Analyze.Analyze(dfa, r.tree, parser.nsub, t);
    StartNode(dfa.st, r.tree, t, a);
    MarksOfPattern(dfa.st, tokens, syntax, a, t, noSub);
    start := NodeIdxAt(dfa.st, dfa.st.cells[r.tree].first);
    eclosures := new Closures.Slot[|dfa.st.nodes|](_ => Closures.NotYet);
    Closures.CalcEclosure(Automaton(dfa.st), eclosures);
  }

  lemma {:induction false} SameAgrees(m: Matcher, t: Tree, u: Tree)
    requires SameTokens(t, u)
    ensures AgreesOnNested(m, t) <==> AgreesOnNested(m, u)
  {
    if t.Node? { SameAgrees(m, t.left, u.left); SameAgrees(m, t.right, u.right); }
  }

  lemma {:induction false} SameNoBrackets(t: Tree, u: Tree)
    requires SameTokens(t, u) && NoBrackets(t)
    ensures NoBrackets(u)
  {
    if t.Node? { SameNoBrackets(t.left, u.left); SameNoBrackets(t.right, u.right); }
  }

  /** What the rest of the compilation needs to know of the parsed tree. */
  lemma ParsedTree(tokens: seq<PatternToken>, x: Syntax, a: Ast, t: Tree)
    requires TokensOk(tokens) && Spells(tokens, x, a) && SameTokens(Whole(a), t)
    ensures TreeMeans(t, a) && InOrder(t, {}, Closed(a, {}), 0, NextNumber(a, 0)) && NoBrackets(t)
  {
    hide InOrder, TreeMeans, Whole, NoBrackets, Spells;
    TreeOfPattern(tokens, x, a);
    MeansSame(Whole(a), t, a);
    SameInOrder(Whole(a), t, {}, Closed(a, {}), 0, NextNumber(a, 0));
    SameNoBrackets(Whole(a), t);
  }

  lemma StartNode(h: Store, root: int, t: Tree, a: Ast)
    requires Analyze.Compiled(h, root, t) && TreeMeans(t, a) && SameTokens(Whole(a), t)
    ensures IsSlot(h, root) && 0 <= NodeIdxAt(h, h.cells[root].first) < |h.nodes|
    ensures Recognizes(Automaton(h), NodeIdxAt(h, h.cells[root].first), a)
  {
    forall m: Matcher | AgreesOnNested(m, Whole(a)) ensures AgreesOnNested(m, t) { SameAgrees(m, Whole(a), t); }
  }

  lemma MarksOfPattern(h: Store, tokens: seq<PatternToken>, x: Syntax, a: Ast, t: Tree, noSub: bool)
    requires TokensOk(tokens) && Spells(tokens, x, a) && SameTokens(Whole(a), t)
    requires Analyze.MarksAre(h, t, noSub, Referred(a))
    ensures GroupsServed(h, a, noSub) && Analyze.MarksAre(h, Whole(a), noSub, Referred(a))
  {
    hide InOrder, Outers, Refs, Groups, LeftRefs, LeftGroups, Marked, UsedAfter, Resolved, Whole, Spells, SameTokens, WellFormed;
    var w := Whole(a);
    TreeOfPattern(tokens, x, a);
    SameMarks(w, t, noSub, Referred(a));
    RefsKeepBrackets(w, noSub, Referred(a), Closed(a, {}), NextNumber(a, 0));
    assert Analyze.MarksAre(h, w, noSub, Referred(a));
    MarksServe(h, a, noSub);
  }

  lemma MarksServe(h: Store, a: Ast, noSub: bool)
    requires Groups(Whole(a)) == LeftGroups(a) && Refs(Whole(a)) == LeftRefs(a)
    requires Analyze.MarksAre(h, Whole(a), noSub, Referred(a)) && RefsMarked(Whole(a), noSub, Referred(a))
    ensures GroupsServed(h, a, noSub)
  {
    hide Outers, Refs, Groups, LeftRefs, LeftGroups, Marked, UsedAfter, Resolved, Whole;
  }

  // ----- With no_sub -----

  /** With no_sub the group of () keeps its OPEN and CLOSE, that of (c) loses them, and that of
      (c)\1 keeps them. */
  lemma NoSubGroups(h: Store, c: int)
    ensures Analyze.MarksAre(h, Whole(EmptyGroup(0)), true, {}) ==> OpenSubexp(0) in h.nodes
    ensures Analyze.MarksAre(h, Whole(Group(0, Literal(TChar(c)))), true, {}) ==> OpenSubexp(0) !in h.nodes
    ensures Analyze.MarksAre(h, Whole(Then(Group(0, Literal(TChar(c))), Ref(0))), true, {0}) ==> OpenSubexp(0) in h.nodes
  {
    var g := Group(0, Literal(TChar(c)));
    assert Shape(EmptyGroup(0)) == Twig(Subexp(0));
    assert Shape(g) == GroupOfChar(c) by { assert Shape(g.body) == Twig(Character(c)); }
    assert Shape(Then(g, Ref(0))) == Node(0, Concat, Shape(g), Twig(BackRef(0)));
    NoSubEmpty();
    NoSubBody(c);
    NoSubRef(c);
    hide Shape, Outers, Resolved, Marked, UsedAfter;
  }

  lemma NoSubEmpty()
    ensures var t := Node(0, Concat, Twig(Subexp(0)), Twig(EndOfRe));
      0 in Marked(true, UsedAfter(t, Outers(t), {}), Resolved(t, Outers(t)))
  {
    var t := Node(0, Concat, Twig(Subexp(0)), Twig(EndOfRe));
    assert Outers(t.left) == map[] == Outers(t.right);
    assert Resolved(t.left, map[]) == t.left && Resolved(t.right, map[]) == t.right;
    assert Outers(t) == map[] && Resolved(t, map[]) == t;
    assert 0 in Marked(true, UsedAfter(t, map[], {}), t.left);
  }

  /** The node of (c). */
  ghost function GroupOfChar(c: int): Tree { Node(0, Subexp(0), Twig(Character(c)), Null) }

  lemma LeafStays(tok: Token)
    requires !tok.Subexp? && !tok.BackRef?
    ensures Outers(Twig(tok)) == map[] && Resolved(Twig(tok), map[]) == Twig(tok) && Refs(Twig(tok)) == {}
    ensures forall used :: Marked(true, used, Twig(tok)) == {}
  {
    TwigSets(tok);
  }

  lemma GroupStays(c: int)
    ensures var g := GroupOfChar(c);
      && Outers(g) == map[] && Resolved(g, map[]) == g && Refs(g) == {}
      && forall used :: Marked(true, used, g) == if 0 in used then {0} else {}
  {
    var g := GroupOfChar(c);
    LeafStays(Character(c));
    assert !Outer(g);
    assert Resolved(g, map[]) == Node(0, Subexp(0), Resolved(g.left, map[]), Resolved(Null, map[]));
    RefsOf(g);
    assert Refs(Null) == {};
  }

  lemma PairStays(t: Tree, u: Tree)
    requires Outers(t) == map[] == Outers(u) && Resolved(t, map[]) == t && Resolved(u, map[]) == u
    ensures var w := Node(0, Concat, t, u);
      && Outers(w) == map[] && Resolved(w, map[]) == w && Refs(w) == Refs(t) + Refs(u)
      && forall used :: Marked(true, used, w) == Marked(true, used, t) + Marked(true, used, u)
  {
    hide Outers, Resolved, Marked, Refs;
    PairUnfolds(t, u);
    RefsOf(Node(0, Concat, t, u));
  }

  lemma PairUnfolds(t: Tree, u: Tree)
    ensures var w := Node(0, Concat, t, u);
      && Outers(w) == Outers(t) + Outers(u) && Resolved(w, map[]) == Node(0, Concat, Resolved(t, map[]), Resolved(u, map[]))
      && forall used :: Marked(true, used, w) == Marked(true, used, t) + Marked(true, used, u)
  {
  }

  lemma NoSubBody(c: int)
    ensures var t := Node(0, Concat, GroupOfChar(c), Twig(EndOfRe));
      Marked(true, UsedAfter(t, Outers(t), {}), Resolved(t, Outers(t))) == {}
  {
    hide Outers, Resolved, Marked, GroupOfChar, Twig, Refs;
    GroupStays(c);
    LeafStays(EndOfRe);
    PairStays(GroupOfChar(c), Twig(EndOfRe));
  }

  lemma NoSubRef(c: int)
    ensures var t := Node(0, Concat, Node(0, Concat, GroupOfChar(c), Twig(BackRef(0))), Twig(EndOfRe));
      0 in Marked(true, UsedAfter(t, Outers(t), {0}), Resolved(t, Outers(t)))
  {
    RefStays();
    hide Outers, Resolved, Marked, GroupOfChar, Twig, Refs;
    GroupStays(c);
    LeafStays(EndOfRe);
    PairStays(GroupOfChar(c), Twig(BackRef(0)));
    PairStays(Node(0, Concat, GroupOfChar(c), Twig(BackRef(0))), Twig(EndOfRe));
  }

  lemma RefStays()
    ensures Outers(Twig(BackRef(0))) == map[] && Resolved(Twig(BackRef(0)), map[]) == Twig(BackRef(0))
    ensures Refs(Twig(BackRef(0))) == {0}
  {
    TwigSets(BackRef(0));
  }

  // ----- A group that is repeated no times -----

  /** (a){0}\1 compiles: the group counts as closed, but neither it nor its OPEN and CLOSE are
      in the automaton, and the back-reference is left without a group. */
  lemma DroppedGroup(x: Syntax) returns (tokens: seq<PatternToken>, a: Ast)
    ensures tokens == [TOpen, TChar(97), TClose, TOpenDup, TChar(48), TCloseDup, TBackRef(0)]
    ensures TokensOk(tokens) && Spells(tokens, x, a) && LeftRefs(a) == {0} && LeftGroups(a) == {}
    ensures forall h: Store, noSub: bool | GroupsServed(h, a, noSub) ::
      BackRef(0) in h.nodes && forall k: nat :: OpenSubexp(k) !in h.nodes
  {
    tokens := [TOpen, TChar(97), TClose, TOpenDup, TChar(48), TCloseDup, TBackRef(0)];
    var d := Repeat(Group(0, Literal(TChar(97))), 0, 0, tokens[3..6]);
    a := Then(d, Ref(0));
    DroppedReads(tokens, x, d);
    DroppedScope(d);
    DroppedNumber(a);
  }

  lemma DroppedReads(tokens: seq<PatternToken>, x: Syntax, d: Ast)
    requires tokens == [TOpen, TChar(97), TClose, TOpenDup, TChar(48), TCloseDup, TBackRef(0)]
    requires d == Repeat(Group(0, Literal(TChar(97))), 0, 0, tokens[3..6])
    ensures Reads(tokens, x, Then(d, Ref(0)), 0, true, false)
  {
    assert tokens[3..6] == [TOpenDup] + [TChar(48)] + [TCloseDup];
    assert SpellsExact(tokens[3..6], [TChar(48)], 0, 0) by { assert Decimal([TChar(48)]) == 0; }
    assert Reads(tokens, x, d.body, 0, true, false);
    assert Reads(tokens, x, d, 0, true, false);
    assert Reads(tokens, x, Ref(0), 6, false, false);
  }

  lemma DroppedScope(d: Ast)
    requires d.Repeat? && d.lo == d.hi == 0 && d.body == Group(0, Literal(TChar(97)))
    ensures RefsInScope(Then(d, Ref(0)), {}) && Numbered(Then(d, Ref(0)), 0)
    ensures LeftRefs(Then(d, Ref(0))) == {0} && LeftGroups(Then(d, Ref(0))) == {}
  {
    assert Closed(d.body, {}) == {0} == Closed(d, {});
    assert RefsInScope(d.body, {}) && RefsInScope(d, {}) && RefsInScope(Ref(0), {0});
    assert Numbered(d.body, 0) && Numbered(d, 0) && Numbered(Ref(0), NextNumber(d, 0));
    assert LeftRefs(d) == {} == LeftGroups(d) && LeftRefs(Ref(0)) == {0} && LeftGroups(Ref(0)) == {};
  }

  lemma DroppedNumber(a: Ast)
    requires a.Then? && a.left.Repeat? && a.left.lo == a.left.hi == 0 && a.right == Ref(0)
    ensures NumberOf(a, 0) == 0
  {
    assert Shape(a) == Twig(BackRef(0));
    assert Whole(a) == Node(0, Concat, Twig(BackRef(0)), Twig(EndOfRe));
    assert Outers(Whole(a)) == map[];
  }
}
