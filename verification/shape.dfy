/** The tree that the parser makes for a syntax tree: what it matches, and which groups and
    back-references it has. */
module Shapes {
  import opened RegexTree
  import opened Patterns
  import opened DupOps
  import opened GroupPasses
  import opened Lowering
  import opened GroupOrder

  ghost predicate TreeMeans(t: Tree, a: Ast) {
    forall m: Matcher, i: nat, j: nat :: Matches(m, t, i, j) <==> AstMatches(m, a, i, j)
  }

  // ----- From the trees of the parts to the tree of the whole -----

  lemma ThenSplits(m: Matcher, a: Ast, i: nat, j: nat) returns (k: nat)
    requires a.Then? && AstMatches(m, a, i, j)
    ensures i <= k <= j && AstMatches(m, a.left, i, k) && AstMatches(m, a.right, k, j)
  {
    k :| i <= k <= j && AstMatches(m, a.left, i, k) && AstMatches(m, a.right, k, j);
  }

  lemma RepeatCounts(m: Matcher, a: Ast, i: nat, j: nat) returns (n: nat)
    requires a.Repeat? && AstMatches(m, a, i, j)
    ensures a.lo <= n && (a.hi == -1 || n <= a.hi) && AstPower(m, a.body, n, i, j)
  {
    n :| a.lo <= n && (a.hi == -1 || n <= a.hi) && AstPower(m, a.body, n, i, j);
  }

  lemma MeansBlank()
    ensures TreeMeans(Null, Blank)
  {
  }

  lemma MeansThen(t: Tree, u: Tree, a: Ast, b: Ast, id: nat)
    requires TreeMeans(t, a) && TreeMeans(u, b)
    ensures TreeMeans(Node(id, Concat, t, u), Then(a, b))
    ensures t.Null? ==> TreeMeans(u, Then(a, b))
    ensures u.Null? ==> TreeMeans(t, Then(a, b))
  {
    var w := Node(id, Concat, t, u);
    forall m: Matcher, i: nat, j: nat
      ensures Matches(m, w, i, j) <==> AstMatches(m, Then(a, b), i, j)
      ensures t.Null? ==> (Matches(m, u, i, j) <==> AstMatches(m, Then(a, b), i, j))
      ensures u.Null? ==> (Matches(m, t, i, j) <==> AstMatches(m, Then(a, b), i, j))
    {
      if AstMatches(m, Then(a, b), i, j) {
        var k := ThenSplits(m, Then(a, b), i, j);
        MatchConcat(m, w, i, k, j);
      }
      if Matches(m, w, i, j) {
        var k := ConcatSplits(m, w, i, j);
        assert AstMatches(m, a, i, k) && AstMatches(m, b, k, j);
      }
      if t.Null? && Matches(m, u, i, j) {
        assert Matches(m, t, i, i) && AstMatches(m, a, i, i) && AstMatches(m, b, i, j);
      }
      if u.Null? && Matches(m, t, i, j) {
        assert Matches(m, u, j, j) && AstMatches(m, a, i, j) && AstMatches(m, b, j, j);
      }
    }
  }

  lemma MeansOr(t: Tree, u: Tree, a: Ast, b: Ast, id: nat)
    requires TreeMeans(t, a) && TreeMeans(u, b)
    ensures TreeMeans(Node(id, Alt, t, u), Or(a, b))
  {
    var w := Node(id, Alt, t, u);
    forall m: Matcher, i: nat, j: nat ensures Matches(m, w, i, j) <==> AstMatches(m, Or(a, b), i, j) {
      EitherMatches(m, w, Or(a, b), i, j);
      hide Matches, AstMatches;
    }
  }

  lemma EitherMatches(m: Matcher, w: Tree, a: Ast, i: nat, j: nat)
    requires w.Node? && w.tok.Alt? && a.Or?
    ensures Matches(m, w, i, j) <==> i <= j && (Matches(m, w.left, i, j) || Matches(m, w.right, i, j))
    ensures AstMatches(m, a, i, j) <==> i <= j && (AstMatches(m, a.left, i, j) || AstMatches(m, a.right, i, j))
  {
  }

  lemma MeansLeaf(tok: Token, id: nat)
    requires tok.Character? || tok.SimpleBracket? || tok.Period? || tok.BackRef?
    ensures tok.BackRef? ==> TreeMeans(Node(id, tok, Null, Null), Ref(tok.idx))
    ensures !tok.BackRef? ==> TreeMeans(Node(id, tok, Null, Null), Leaf(tok))
    ensures forall t | tok == Character(CharOf(t)) :: TreeMeans(Node(id, tok, Null, Null), Literal(t))
    ensures tok == Character(OPEN_BRACE) ==> TreeMeans(Node(id, tok, Null, Null), LeftBrace)
  {
  }

  lemma MeansGroup(t: Tree, a: Ast, k: nat, id: nat)
    requires TreeMeans(t, a)
    ensures TreeMeans(Node(id, Subexp(k), t, Null), Group(k, a))
  {
    var w := Node(id, Subexp(k), t, Null);
    forall m: Matcher, i: nat, j: nat ensures Matches(m, w, i, j) <==> AstMatches(m, Group(k, a), i, j) {
      assert Matches(m, w, i, j) <==> i <= j && Matches(m, t, i, j);
    }
  }

  lemma MeansEmptyGroup(k: nat, id: nat)
    ensures TreeMeans(Node(id, Subexp(k), Null, Null), EmptyGroup(k))
  {
  }

  lemma MeansSkip(t: Tree, a: Ast, s: PatternToken)
    requires TreeMeans(t, a)
    ensures TreeMeans(t, Skip(s, a))
  {
  }

  lemma {:induction false} PowersAgree(m: Matcher, t: Tree, a: Ast, n: nat, i: nat, j: nat)
    requires TreeMeans(t, a)
    ensures Power(m, t, n, i, j) <==> AstPower(m, a, n, i, j)
    decreases n
  {
    if n > 0 {
      var n1 := n - 1;
      forall k: nat | i <= k <= j ensures Power(m, t, n1, k, j) <==> AstPower(m, a, n1, k, j) {
        PowersAgree(m, t, a, n1, k, j);
      }
      forall k: nat ensures Matches(m, t, i, k) <==> AstMatches(m, a, i, k) {}
    }
  }

  lemma MeansRepeat(t: Tree, u: Tree, a: Ast, lo: nat, hi: int, s: seq<PatternToken>)
    requires TreeMeans(t, a) && Means(u, t, lo, hi)
    ensures TreeMeans(u, Repeat(a, lo, hi, s))
  {
    forall m: Matcher, i: nat, j: nat ensures Matches(m, u, i, j) <==> AstMatches(m, Repeat(a, lo, hi, s), i, j) {
      forall n: nat ensures Power(m, t, n, i, j) <==> AstPower(m, a, n, i, j) { PowersAgree(m, t, a, n, i, j); }
      if Repeated(m, t, lo, hi, i, j) {
        var n: nat :| lo <= n && (hi == -1 || n <= hi) && Power(m, t, n, i, j);
        PowerForward(m, t, n, i, j);
        assert AstPower(m, a, n, i, j);
      }
      if AstMatches(m, Repeat(a, lo, hi, s), i, j) {
        var n := RepeatCounts(m, Repeat(a, lo, hi, s), i, j);
        assert Power(m, t, n, i, j);
      }
    }
  }

  /** Nothing follows the pattern but the end marker, which matches nothing. */
  lemma MeansEnd(t: Tree, a: Ast, id: nat, id': nat)
    requires TreeMeans(t, a)
    ensures TreeMeans(Node(id', Concat, t, Node(id, EndOfRe, Null, Null)), a)
    ensures t.Null? ==> TreeMeans(Node(id, EndOfRe, Null, Null), a)
  {
    var e := Node(id, EndOfRe, Null, Null);
    var w := Node(id', Concat, t, e);
    forall m: Matcher, i: nat, j: nat
      ensures Matches(m, w, i, j) <==> AstMatches(m, a, i, j)
      ensures t.Null? ==> (Matches(m, e, i, j) <==> AstMatches(m, a, i, j))
    {
      assert Matches(m, t, i, j) <==> AstMatches(m, a, i, j);
      if Matches(m, w, i, j) { var k := ConcatSplits(m, w, i, j); }
      if Matches(m, t, i, j) { MatchConcat(m, w, i, j, j); }
    }
  }

  // ----- The tree of a syntax tree, as a value -----

  /** The bounds of every repetition are in order. */
  ghost predicate BoundsOk(a: Ast) {
    match a
    case Or(l, r) => BoundsOk(l) && BoundsOk(r)
    case Then(l, r) => BoundsOk(l) && BoundsOk(r)
    case Repeat(b, lo, hi, _) => BoundsOk(b) && (hi == -1 || lo <= hi)
    case Skip(_, b) => BoundsOk(b)
    case Group(_, b) => BoundsOk(b)
    case _ => true
  }

  ghost function Twig(tok: Token): Tree { Node(0, tok, Null, Null) }

  /** The tree, but for the arena slots. A part without a tree is left out of a sequence. */
  ghost function Shape(a: Ast): Tree {
    match a
    case Or(l, r) => Node(0, Alt, Shape(l), Shape(r))
    case Then(l, r) => Sequence(Shape(l), Shape(r))
    case Blank => Null
    case Repeat(b, lo, hi, _) => if hi == -1 || lo <= hi then Expansion(Shape(b), lo, hi) else Null
    case Skip(_, b) => Shape(b)
    case Literal(t) => Twig(Character(CharOf(t)))
    case LeftBrace => Twig(Character(OPEN_BRACE))
    case Leaf(tok) => Twig(tok)
    case Group(k, b) => Node(0, Subexp(k), Shape(b), Null)
    case EmptyGroup(k) => Twig(Subexp(k))
    case Ref(k) => Twig(BackRef(k))
  }

  ghost function Sequence(t: Tree, u: Tree): Tree {
    if t.Null? then u else if u.Null? then t else Node(0, Concat, t, u)
  }

  /** The tree of a whole pattern: the end marker comes last. */
  ghost function Whole(a: Ast): Tree { Sequence(Shape(a), Twig(EndOfRe)) }

  /** Leaves are tokens that consume something. */
  ghost predicate LeavesOk(a: Ast) {
    match a
    case Or(l, r) => LeavesOk(l) && LeavesOk(r)
    case Then(l, r) => LeavesOk(l) && LeavesOk(r)
    case Repeat(b, _, _, _) => LeavesOk(b)
    case Skip(_, b) => LeavesOk(b)
    case Group(_, b) => LeavesOk(b)
    case Leaf(tok) => tok.SimpleBracket? || tok.Period?
    case _ => true
  }

  lemma {:induction false} ShapeMeans(a: Ast)
    requires BoundsOk(a) && LeavesOk(a)
    ensures TreeMeans(Shape(a), a)
    decreases a
  {
    hide TreeMeans, Means;
    match a
    case Or(l, r) =>
      ShapeMeans(l);
      ShapeMeans(r);
      MeansOr(Shape(l), Shape(r), l, r, 0);
    case Then(l, r) =>
      ShapeMeans(l);
      ShapeMeans(r);
      MeansThen(Shape(l), Shape(r), l, r, 0);
    case Blank => MeansBlank();
    case Repeat(b, lo, hi, s) =>
      ShapeMeans(b);
      ExpansionMeans(Shape(b), lo, hi);
      MeansRepeat(Shape(b), Shape(a), b, lo, hi, s);
    case Skip(t, b) =>
      ShapeMeans(b);
      MeansSkip(Shape(b), b, t);
    case Literal(t) => MeansLeaf(Character(CharOf(t)), 0);
    case LeftBrace => MeansLeaf(Character(OPEN_BRACE), 0);
    case Leaf(tok) => MeansLeaf(tok, 0);
    case Group(k, b) =>
      ShapeMeans(b);
      MeansGroup(Shape(b), b, k, 0);
    case EmptyGroup(k) => MeansEmptyGroup(k, 0);
    case Ref(k) => MeansLeaf(BackRef(k), 0);
  }

  lemma MeansSame(t: Tree, u: Tree, a: Ast)
    requires TreeMeans(t, a) && SameTokens(t, u)
    ensures TreeMeans(u, a)
  {
    forall m: Matcher, i: nat, j: nat ensures Matches(m, u, i, j) <==> AstMatches(m, a, i, j) {
      SameTokensMatch(m, t, u, i, j);
    }
  }

  // ----- Its groups and back-references -----

  /** The groups that are left: those not repeated no times. */
  ghost function LeftGroups(a: Ast): set<nat> {
    match a
    case Or(l, r) => LeftGroups(l) + LeftGroups(r)
    case Then(l, r) => LeftGroups(l) + LeftGroups(r)
    case Repeat(b, _, hi, _) => if hi == 0 then {} else LeftGroups(b)
    case Skip(_, b) => LeftGroups(b)
    case Group(k, b) => {k} + LeftGroups(b)
    case EmptyGroup(k) => {k}
    case _ => {}
  }

  ghost function LeftRefs(a: Ast): set<nat> {
    match a
    case Or(l, r) => LeftRefs(l) + LeftRefs(r)
    case Then(l, r) => LeftRefs(l) + LeftRefs(r)
    case Repeat(b, _, hi, _) => if hi == 0 then {} else LeftRefs(b)
    case Skip(_, b) => LeftRefs(b)
    case Group(_, b) => LeftRefs(b)
    case Ref(k) => {k}
    case _ => {}
  }

  lemma TwigSets(tok: Token)
    ensures Groups(Twig(tok)) == if tok.Subexp? then {tok.idx} else {}
    ensures Refs(Twig(tok)) == if tok.BackRef? then {tok.idx} else {}
  {
    RefsOf(Twig(tok));
    GroupsOf(Twig(tok));
  }

  lemma SequenceSets(t: Tree, u: Tree)
    ensures Groups(Sequence(t, u)) == Groups(t) + Groups(u) && Refs(Sequence(t, u)) == Refs(t) + Refs(u)
  {
    PairSets(0, Concat, t, u);
  }

  lemma ExpansionSets(e: Tree, lo: nat, hi: int)
    requires hi == -1 || lo <= hi
    ensures Groups(Expansion(e, lo, hi)) == if hi == 0 then {} else Groups(e)
    ensures Refs(Expansion(e, lo, hi)) == if hi == 0 then {} else Refs(e)
  {
    ExpansionCopied(e, lo, hi);
    if Expansion(e, lo, hi).Node? { CopiesSets(Expansion(e, lo, hi), e); }
  }

  /** The tree has exactly the groups and back-references that are left of the pattern. */
  lemma {:induction false} ShapeSets(a: Ast)
    requires BoundsOk(a) && LeavesOk(a)
    ensures Groups(Shape(a)) == LeftGroups(a) && Refs(Shape(a)) == LeftRefs(a)
    decreases a
  {
    hide Groups, Refs;
    match a
    case Or(l, r) =>
      ShapeSets(l);
      ShapeSets(r);
      PairSets(0, Alt, Shape(l), Shape(r));
    case Then(l, r) =>
      ShapeSets(l);
      ShapeSets(r);
      SequenceSets(Shape(l), Shape(r));
    case Repeat(b, lo, hi, _) =>
      ShapeSets(b);
      ExpansionSets(Shape(b), lo, hi);
    case Skip(_, b) => ShapeSets(b);
    case Group(k, b) =>
      ShapeSets(b);
      GroupsOf(Shape(a));
      RefsOf(Shape(a));
      NullSets();
    case Blank => NullSets();
    case _ => TwigSets(Shape(a).tok);
  }

  lemma NullSets()
    ensures Groups(Null) == {} && Refs(Null) == {}
  {
  }

  predicate BkrefsOk(completed: set<nat>) { forall k | k in completed :: k <= 8 }

  /** The groups of a pattern that reads are stripped and referred to in order. */
  lemma {:induction false} ShapeInOrder(a: Ast, c: set<nat>, n: nat)
    requires BoundsOk(a) && LeavesOk(a) && RefsInScope(a, c) && Numbered(a, n) && BkrefsOk(c)
    ensures InOrder(Shape(a), c, Closed(a, c), n, NextNumber(a, n)) && BkrefsOk(Closed(a, c))
    decreases a
  {
    hide InOrder;
    GroupNumbers(a, n);
    match a
    case Or(l, r) =>
      var n1 := NextNumber(l, n);
      ShapeInOrder(l, c, n);
      ShapeInOrder(r, c, n1);
      InOrderPair(0, Alt, Shape(l), Shape(r), c, Closed(l, c), c, Closed(r, c), n, n1, NextNumber(r, n1));
    case Then(l, r) =>
      var c1, n1 := Closed(l, c), NextNumber(l, n);
      ShapeInOrder(l, c, n);
      ShapeInOrder(r, c1, n1);
      ClosedGrows(r, c1);
      InOrderPair(0, Concat, Shape(l), Shape(r), c, c1, c1, Closed(r, c1), n, n1, NextNumber(r, n1));
      InOrderAlone(Shape(l), Shape(r), c, c1, Closed(r, c1), n, n1, NextNumber(r, n1));
      assert c1 + Closed(r, c1) == Closed(r, c1);
    case Repeat(b, lo, hi, _) =>
      ShapeInOrder(b, c, n);
      ExpansionCopied(Shape(b), lo, hi);
      InOrderCopies(Shape(a), Shape(b), c, Closed(b, c), n, NextNumber(b, n));
    case Skip(_, b) => ShapeInOrder(b, c, n);
    case Blank => InOrderNothing(c, c, n, n);
    case Group(k, b) =>
      ShapeInOrder(b, c, n + 1);
      InOrderGroup(0, Shape(b), c, Closed(b, c), n, NextNumber(b, n + 1));
      assert Closed(b, c) + {} == Closed(b, c);
    case EmptyGroup(k) =>
      InOrderNothing(c, c, n + 1, n + 1);
      InOrderGroup(0, Null, c, c, n, n + 1);
      assert c + {} == c;
    case _ => InOrderLeaf(0, Shape(a).tok, c, n);
  }

  /** The body of a group. */
  ghost function BodyOf(a: Ast, k: nat): Ast {
    match a
    case Or(l, r) => if k in GroupsIn(l) then BodyOf(l, k) else BodyOf(r, k)
    case Then(l, r) => if k in GroupsIn(l) then BodyOf(l, k) else BodyOf(r, k)
    case Repeat(b, _, _, _) => BodyOf(b, k)
    case Skip(_, b) => BodyOf(b, k)
    case Group(i, b) => if k == i then b else BodyOf(b, k)
    case _ => Blank
  }

  ghost function BodiesOf(m: Matcher, a: Ast): Bodies { (k: nat, i: nat, j: nat) => AstMatches(m, BodyOf(a, k), i, j) }

  lemma {:induction false} LeftIn(a: Ast)
    ensures LeftGroups(a) <= GroupsIn(a)
    decreases a
  {
    match a
    case Or(l, r) => LeftIn(l); LeftIn(r);
    case Then(l, r) => LeftIn(l); LeftIn(r);
    case Repeat(b, _, _, _) => LeftIn(b);
    case Skip(_, b) => LeftIn(b);
    case Group(_, b) => LeftIn(b);
    case _ =>
  }

  /** Only the groups of the tree matter. */
  lemma {:induction false} BodiesOn(m: Matcher, t: Tree, f: Bodies, g: Bodies)
    requires HasBodies(m, t, f) && forall k: nat, i: nat, j: nat | k in Groups(t) :: g(k, i, j) == f(k, i, j)
    ensures HasBodies(m, t, g)
  {
    if t.Node? {
      GroupsOf(t);
      BodiesOn(m, t.left, f, g);
      BodiesOn(m, t.right, f, g);
    }
  }

  lemma {:induction false} SameBodies(m: Matcher, t: Tree, u: Tree, f: Bodies)
    requires SameTokens(t, u) && HasBodies(m, t, f)
    ensures HasBodies(m, u, f)
  {
    if t.Node? {
      SameBodies(m, t.left, u.left, f);
      SameBodies(m, t.right, u.right, f);
      if t.tok.Subexp? {
        forall i: nat, j: nat ensures Matches(m, u.left, i, j) <==> f(u.tok.idx, i, j) { SameTokensMatch(m, t.left, u.left, i, j); }
      }
    }
  }

  lemma {:induction false} CopiesBodies(m: Matcher, u: Tree, e: Tree, f: Bodies)
    requires Copies(u, e) && HasBodies(m, e, f)
    ensures HasBodies(m, u, f)
  {
    if SameTokens(e, u) {
      SameBodies(m, e, u, f);
    } else {
      CopiesBodies(m, u.left, e, f);
      if u.tok.Concat? { CopiesBodies(m, u.right, e, f); }
    }
  }

  /** A part keeps its bodies within the whole. */
  lemma PartBodies(m: Matcher, a: Ast, b: Ast)
    requires HasBodies(m, Shape(b), BodiesOf(m, b)) && BoundsOk(b) && LeavesOk(b)
    requires forall k | k in GroupsIn(b) :: BodyOf(a, k) == BodyOf(b, k)
    ensures HasBodies(m, Shape(b), BodiesOf(m, a))
  {
    LeftIn(b);
    ShapeSets(b);
    BodiesOn(m, Shape(b), BodiesOf(m, b), BodiesOf(m, a));
  }

  /** Wherever a group occurs in the tree, its node is over a tree that matches what the body
      of the group means. */
  lemma {:induction false} ShapeBodies(m: Matcher, a: Ast, n: nat)
    requires BoundsOk(a) && LeavesOk(a) && Numbered(a, n)
    ensures HasBodies(m, Shape(a), BodiesOf(m, a))
    decreases a
  {
    hide HasBodies, BodiesOf, TreeMeans;
    match a
    case Or(l, r) =>
      var n1 := NextNumber(l, n);
      GroupNumbers(l, n);
      GroupNumbers(r, n1);
      ShapeBodies(m, l, n);
      ShapeBodies(m, r, n1);
      PartBodies(m, a, l);
      PartBodies(m, a, r);
      PairBodies(m, 0, Alt, Shape(l), Shape(r), BodiesOf(m, a));
    case Then(l, r) =>
      var n1 := NextNumber(l, n);
      GroupNumbers(l, n);
      GroupNumbers(r, n1);
      ShapeBodies(m, l, n);
      ShapeBodies(m, r, n1);
      PartBodies(m, a, l);
      PartBodies(m, a, r);
      PairBodies(m, 0, Concat, Shape(l), Shape(r), BodiesOf(m, a));
    case Repeat(b, lo, hi, _) =>
      ShapeBodies(m, b, n);
      PartBodies(m, a, b);
      ExpansionCopied(Shape(b), lo, hi);
      NullBodies(m, BodiesOf(m, a));
      if Shape(a).Node? { CopiesBodies(m, Shape(a), Shape(b), BodiesOf(m, a)); }
    case Skip(_, b) =>
      ShapeBodies(m, b, n);
      PartBodies(m, a, b);
    case Group(k, b) =>
      GroupNumbers(b, n + 1);
      ShapeBodies(m, b, n + 1);
      PartBodies(m, a, b);
      ShapeMeans(b);
      GroupBodies(m, a);
    case EmptyGroup(k) => GroupBodies(m, a);
    case Blank => NullBodies(m, BodiesOf(m, a));
    case _ => TwigBodies(m, Shape(a).tok, BodiesOf(m, a));
  }

  lemma NullBodies(m: Matcher, f: Bodies)
    ensures HasBodies(m, Null, f)
  {
  }

  lemma TwigBodies(m: Matcher, tok: Token, f: Bodies)
    requires !tok.Subexp?
    ensures HasBodies(m, Twig(tok), f)
  {
  }

  lemma PairBodies(m: Matcher, id: nat, tok: Token, t: Tree, u: Tree, f: Bodies)
    requires (tok.Concat? || tok.Alt?) && HasBodies(m, t, f) && HasBodies(m, u, f)
    ensures HasBodies(m, Node(id, tok, t, u), f)
  {
  }

  lemma GroupBodies(m: Matcher, a: Ast)
    requires a.EmptyGroup? || (a.Group? && HasBodies(m, Shape(a.body), BodiesOf(m, a)) && TreeMeans(Shape(a.body), a.body))
    ensures HasBodies(m, Shape(a), BodiesOf(m, a))
  {
    var t := Shape(a);
    var k, b := t.tok.idx, if a.Group? then a.body else Blank;
    MeansBlank();
    assert TreeMeans(t.left, b) && BodyOf(a, k) == b;
    forall i: nat, j: nat ensures Matches(m, t.left, i, j) <==> BodiesOf(m, a)(k, i, j) {
      assert Matches(m, t.left, i, j) <==> AstMatches(m, b, i, j);
    }
    assert t.right == Null;
  }

  // ----- The whole pattern with its end marker -----

  lemma WholeMeans(a: Ast)
    requires BoundsOk(a) && LeavesOk(a)
    ensures TreeMeans(Whole(a), a)
  {
    ShapeMeans(a);
    MeansEnd(Shape(a), a, 0, 0);
  }

  lemma WholeSets(a: Ast)
    requires BoundsOk(a) && LeavesOk(a)
    ensures Groups(Whole(a)) == LeftGroups(a) && Refs(Whole(a)) == LeftRefs(a)
  {
    ShapeSets(a);
    TwigSets(EndOfRe);
    SequenceSets(Shape(a), Twig(EndOfRe));
  }

  lemma WholeInOrder(a: Ast)
    requires BoundsOk(a) && LeavesOk(a) && RefsInScope(a, {}) && Numbered(a, 0)
    ensures InOrder(Whole(a), {}, Closed(a, {}), 0, NextNumber(a, 0))
  {
    hide InOrder;
    var c, n := Closed(a, {}), NextNumber(a, 0);
    ShapeInOrder(a, {}, 0);
    InOrderLeaf(0, EndOfRe, c, n);
    InOrderPair(0, Concat, Shape(a), Twig(EndOfRe), {}, c, c, c, 0, n, n);
    InOrderAlone(Shape(a), Twig(EndOfRe), {}, c, c, 0, n, n);
    assert c + c == c;
  }

  lemma WholeBodies(m: Matcher, a: Ast)
    requires BoundsOk(a) && LeavesOk(a) && Numbered(a, 0)
    ensures HasBodies(m, Whole(a), BodiesOf(m, a))
  {
    hide HasBodies, BodiesOf;
    ShapeBodies(m, a, 0);
    TwigBodies(m, EndOfRe, BodiesOf(m, a));
    PairBodies(m, 0, Concat, Shape(a), Twig(EndOfRe), BodiesOf(m, a));
  }

  lemma {:induction false} ShapeParsed(a: Ast)
    requires BoundsOk(a) && LeavesOk(a)
    ensures Parsed(Shape(a))
    decreases a
  {
    match a
    case Or(l, r) => ShapeParsed(l); ShapeParsed(r);
    case Then(l, r) => ShapeParsed(l); ShapeParsed(r);
    case Repeat(b, lo, hi, _) =>
      ShapeParsed(b);
      ExpansionCopied(Shape(b), lo, hi);
      if Shape(a).Node? { CopiesParsed(Shape(a), Shape(b)); }
    case Skip(_, b) => ShapeParsed(b);
    case Group(_, b) => ShapeParsed(b);
    case _ =>
  }

  lemma {:induction false} PlainNoBrackets(t: Tree)
    requires Plain(t)
    ensures NoBrackets(t)
  {
    if t.Node? { PlainNoBrackets(t.left); PlainNoBrackets(t.right); }
  }

  lemma WholeWellFormed(a: Ast)
    requires BoundsOk(a) && LeavesOk(a)
    ensures WellFormed(Whole(a)) && NoBrackets(Whole(a))
  {
    ShapeParsed(a);
    PlainNoBrackets(Shape(a));
  }

  // ----- From the trees of the parts to the tree of the whole, in the arena -----

  /** The tree is the one for `a`, in whatever slots. */
  ghost predicate Renders(t: Tree, a: Ast) { SameTokens(Shape(a), t) }

  lemma RendersBlank()
    ensures Renders(Null, Blank)
  {
  }

  lemma RendersThen(t: Tree, u: Tree, a: Ast, b: Ast, id: nat)
    requires Renders(t, a) && Renders(u, b)
    ensures t.Null? ==> Renders(u, Then(a, b))
    ensures u.Null? ==> Renders(t, Then(a, b))
    ensures t.Node? && u.Node? ==> Renders(Node(id, Concat, t, u), Then(a, b))
  {
  }

  lemma RendersOr(t: Tree, u: Tree, a: Ast, b: Ast, id: nat)
    requires Renders(t, a) && Renders(u, b)
    ensures Renders(Node(id, Alt, t, u), Or(a, b))
  {
  }

  lemma RendersLeaf(tok: Token, id: nat)
    ensures tok.BackRef? ==> Renders(Node(id, tok, Null, Null), Ref(tok.idx))
    ensures Renders(Node(id, tok, Null, Null), Leaf(tok))
    ensures forall t | tok == Character(CharOf(t)) :: Renders(Node(id, tok, Null, Null), Literal(t))
    ensures tok == Character(OPEN_BRACE) ==> Renders(Node(id, tok, Null, Null), LeftBrace)
  {
    var u := Node(id, tok, Null, Null);
    assert SameTokens(Twig(tok), u);
    forall t | tok == Character(CharOf(t)) ensures Renders(u, Literal(t)) {
      assert Shape(Literal(t)) == Twig(tok);
    }
  }

  lemma RendersGroup(t: Tree, a: Ast, k: nat, id: nat)
    ensures Renders(t, a) ==> Renders(Node(id, Subexp(k), t, Null), Group(k, a))
    ensures t.Null? ==> Renders(Node(id, Subexp(k), t, Null), EmptyGroup(k))
  {
  }

  lemma RendersSkip(t: Tree, a: Ast, x: PatternToken)
    requires Renders(t, a)
    ensures Renders(t, Skip(x, a))
  {
  }

  lemma RendersRepeat(t: Tree, u: Tree, a: Ast, lo: nat, hi: int, x: seq<PatternToken>)
    requires Renders(t, a) && (hi == -1 || lo <= hi) && SameTokens(Expansion(t, lo, hi), u)
    ensures Renders(u, Repeat(a, lo, hi, x))
  {
    ExpansionSame(Shape(a), t, lo, hi);
    SameTokensTrans(Expansion(Shape(a), lo, hi), Expansion(t, lo, hi), u);
  }

  lemma RendersWhole(t: Tree, a: Ast, id: nat, id': nat)
    requires Renders(t, a)
    ensures var f := Node(id, EndOfRe, Null, Null); SameTokens(Whole(a), if t.Null? then f else Node(id', Concat, t, f))
  {
  }
}
