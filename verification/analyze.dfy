/** analyze: all the passes in order, and what the compiled automaton accepts. */
module Analyze {
  import opened RegexTree
  import opened TreeStore
  import opened GroupPasses
  import opened Lowering
  import opened NfaPasses
  import opened NfaLanguage
  import opened NfaTables
  import opened GroupOrder
  import Closures

  ghost predicate SameTables(h: Store, h': Store) {
    h'.nodes == h.nodes && h'.nexts == h.nexts && h'.edests == h.edests
  }

  // ----- The group passes keep the automaton's tables and the end marker -----

  /** The root of a tree keeps its token unless it is a back-reference; the end marker stays
      a leaf; and no end marker appears where there was none. */
  ghost predicate SameEnds(t: Tree, u: Tree) {
    && (t.Node? <==> u.Node?)
    && (t.Node? && !t.tok.BackRef? ==> u.tok == t.tok)
    && (NoEnd(t) ==> NoEnd(u))
  }

  lemma OptimizeShape(h: Store, t: Tree)
    requires t.Node? && WellFormed(t)
    ensures var t1 := OptimizeTree(h, t);
      && t1.Node? && Size(t1) <= Size(t) && WellFormed(t1.left) && WellFormed(t1.right)
      && (!t.tok.BackRef? ==> t1.tok == t.tok) && (t.tok.BackRef? ==> t1.tok.BackRef?)
      && (NoEnd(t) ==> NoEnd(t1.left) && NoEnd(t1.right)) && (t.tok.Concat? ==> t1 == t)
  {
    if t.tok.Subexp? && t.left.Node? && t.left.tok.Subexp? {
      assert Size(t.left) == 1 + Size(t.left.left) + Size(t.left.right);
    }
  }

  lemma OptimizeTables(h: Store, p: int)
    ensures SameTables(h, OptimizeSubexps(h, p))
  {
  }

  lemma {:induction false} OptimizeEnds(h: Store, t: Tree)
    requires WellFormed(t)
    ensures var x := PreVisit(OptimizeSubexps, OptimizeTree, h, t);
      SameEnds(t, x.1) && SameTables(h, x.0)
    decreases Size(t)
  {
    hide OptimizeTree, OptimizeSubexps, WellFormed;
    if t.Node? {
      OptimizeShape(h, t);
      OptimizeTables(h, t.id);
      var t1, h1 := OptimizeTree(h, t), OptimizeSubexps(h, t.id);
      OptimizeEnds(h1, t1.left);
      OptimizeEnds(PreVisit(OptimizeSubexps, OptimizeTree, h1, t1.left).0, t1.right);
    }
  }

  lemma LowerGroupEnds(h: Store, g: Tree)
    requires WellFormed(g)
    ensures LowerGroup(h, g).Null? <==> g.Null?
    ensures NoEnd(g) ==> NoEnd(LowerGroup(h, g))
    ensures g.Node? && g.tok.EndOfRe? ==> LowerGroup(h, g) == g
  {
  }

  lemma LowerCallEnds(h: Store, t: Tree)
    requires t.Node? && WellFormed(t.left) && WellFormed(t.right)
    ensures var u := LowerTree(h, t);
      && u.Node? && u.tok == t.tok && (t.left.Node? <==> u.left.Node?) && (t.right.Node? <==> u.right.Node?)
      && (NoEnd(t.left) ==> NoEnd(u.left)) && (NoEnd(t.right) ==> NoEnd(u.right))
      && (t.right.Node? && t.right.tok.EndOfRe? ==> u.right == t.right)
    ensures SameTables(h, LowerSubexps(h, t.id))
  {
    LowerGroupEnds(h, t.left);
    LowerGroupEnds(LowerLeft(h, t.id), t.right);
    LowerTables(h, t.id);
  }

  lemma LowerTables(h: Store, p: int)
    ensures SameTables(h, LowerSubexps(h, p))
  {
    assert SameTables(h, LowerLeft(h, p));
  }

  lemma {:induction false} LowerEnds(h: Store, t: Tree)
    requires WellFormed(t)
    ensures var x := PostVisit(LowerSubexps, LowerTree, h, t);
      && SameTables(h, x.0) && (t.Node? <==> x.1.Node?) && (t.Node? ==> x.1.tok == t.tok) && (NoEnd(t) ==> NoEnd(x.1))
    decreases t
  {
    hide LowerTree, LowerSubexps;
    if t.Node? {
      LowerEnds(h, t.left);
      var a := PostVisit(LowerSubexps, LowerTree, h, t.left);
      LowerEnds(a.0, t.right);
      var b := PostVisit(LowerSubexps, LowerTree, a.0, t.right);
      LowerStaysWellFormed(h, t.left);
      LowerStaysWellFormed(a.0, t.right);
      LowerCallEnds(b.0, Node(t.id, t.tok, a.1, b.1));
    }
  }

  lemma LowerStaysWellFormed(h: Store, t: Tree)
    requires WellFormed(t)
    ensures WellFormed(PostVisit(LowerSubexps, LowerTree, h, t).1)
  {
    LowerPreserves((tok, i, j) => false, h, t);
  }

  lemma LowerPattern(h: Store, t: Tree)
    requires IsPatternTree(t)
    ensures IsPatternTree(PostVisit(LowerSubexps, LowerTree, h, t).1)
  {
    LowerStaysWellFormed(h, t);
    LowerEnds(h, t);
    if t.tok.Concat? {
      LowerEnds(h, t.left);
      LowerStaysWellFormed(h, t.left);
      var a := PostVisit(LowerSubexps, LowerTree, h, t.left);
      LowerEnds(a.0, t.right);
      LowerStaysWellFormed(a.0, t.right);
      var b := PostVisit(LowerSubexps, LowerTree, a.0, t.right);
      LowerCallEnds(b.0, Node(t.id, t.tok, a.1, b.1));
    }
  }

  lemma OptimizePattern(h: Store, t: Tree)
    requires IsPatternTree(t) && WellFormed(PreVisit(OptimizeSubexps, OptimizeTree, h, t).1)
    ensures IsPatternTree(PreVisit(OptimizeSubexps, OptimizeTree, h, t).1)
  {
    OptimizeEnds(h, t);
    OptimizeShape(h, t);
    if t.tok.Concat? {
      hide OptimizeTree, OptimizeSubexps;
      var h1 := OptimizeSubexps(h, t.id);
      OptimizeEnds(h1, t.left);
      OptimizeEnds(PreVisit(OptimizeSubexps, OptimizeTree, h1, t.left).0, t.right);
    }
  }

  lemma {:induction false} FlatInner(t: Tree)
    requires Flat(t) && NoEnd(t)
    ensures Inner(t)
  {
    if t.Node? { FlatInner(t.left); FlatInner(t.right); }
  }

  /** What the compiled automaton is good for: from its initial node it accepts, for every
      matcher, exactly the spans that the pattern tree matches. */
  ghost predicate Compiled(h: Store, root: int, t: Tree) {
    && IsSlot(h, root) && 0 <= NodeIdxAt(h, h.cells[root].first) < |h.nodes|
    && forall m: Matcher, p: nat, q: nat | AgreesOnNested(m, t) ::
      Accepts(Automaton(h), m, NodeIdxAt(h, h.cells[root].first), p, q) <==> Matches(m, t, p, q)
  }

  /** optimize_subexps, then lower_subexps. */
  lemma GroupsDone(h: Store, t: Tree)
    requires IsPatternTree(t) && Distinct(t) && TreeAt(h, t, -1) && Identity(h.subexpMap)
    ensures var x := PreVisit(OptimizeSubexps, OptimizeTree, h, t); var y := PostVisit(LowerSubexps, LowerTree, x.0, x.1);
      && IsPatternTree(y.1) && Flat(y.1.left) && Flat(y.1.right) && SameTables(h, y.0)
      && forall m | AgreesOnNested(m, t) :: SameSpans(m, t, y.1)
  {
    var x := PreVisit(OptimizeSubexps, OptimizeTree, h, t);
    var y := PostVisit(LowerSubexps, LowerTree, x.0, x.1);
    forall m | AgreesOnNested(m, t) ensures SameSpans(m, t, y.1) {
      assert MapAgrees(m, h.subexpMap);
      OptimizePreserves(m, h, t, -1);
      LowerPreserves(m, x.0, x.1);
    }
    var none: Matcher := (tok, i, j) => false;
    NoneAgrees(none, t);
    assert MapAgrees(none, h.subexpMap);
    OptimizePreserves(none, h, t, -1);
    OptimizeEnds(h, t);
    OptimizePattern(h, t);
    LowerPreserves(none, x.0, x.1);
    LowerEnds(x.0, x.1);
    LowerPattern(x.0, x.1);
  }

  // ----- Every epsilon edge leads to a node -----

  lemma {:induction false} InnerEdges(n: Nfa, t: Tree, a: nat, nxi: int)
    requires WellFormed(t) && Inner(t) && Linked(n, t, a, nxi) && a + Count(t) <= |n.nodes| && 0 <= nxi < |n.nodes|
    ensures forall i, e | a <= i < a + Count(t) && Closures.EpsilonEdge(n, i, e) :: 0 <= e < |n.nodes|
    decreases t
  {
    hide Linked, WellFormed, Inner;
    if t.Node? {
      LinkedRoot(n, t, a, nxi);
      IdxRange(t, a);
      var mid := a + Count(t.left);
      if t.left.Node? { IdxRange(t.left, a); }
      if t.right.Node? { IdxRange(t.right, mid); }
      match t.tok
      case Concat => InnerEdges(n, t.left, a, Idx(t.right, mid)); InnerEdges(n, t.right, mid, nxi);
      case DupAsterisk => InnerEdges(n, t.left, a, Idx(t, a));
      case Alt => InnerEdges(n, t.left, a, nxi); InnerEdges(n, t.right, mid, nxi);
      case _ =>
    }
  }

  lemma PatternEdges(n: Nfa, t: Tree, nxi: int)
    requires IsPatternTree(t) && (t.tok.Concat? ==> Inner(t.left)) && Linked(n, t, 0, nxi) && |n.nodes| == Count(t)
    ensures Closures.GraphOk(n)
  {
    if t.tok.Concat? {
      var end := Idx(t.right, Count(t.left));
      assert Linked(n, t.left, 0, end) && Linked(n, t.right, Count(t.left), nxi);
      assert WellFormed(t.right);
      assert t.right.left.Null? && t.right.right.Null?;
      assert Count(t.right) == 1 && end == Count(t.left) && n.nodes[end].EndOfRe?;
      InnerEdges(n, t.left, 0, end);
    } else {
      assert Count(t) == 1 && Idx(t, 0) == 0 && n.nodes[0].EndOfRe?;
    }
  }

  // ----- The nodes are those of the tree -----

  ghost function Tokens(t: Tree): set<Token> {
    if t.Null? then {} else Tokens(t.left) + Tokens(t.right) + if t.tok.Concat? then {} else {t.tok}
  }

  ghost function NodesFrom(n: Nfa, a: nat, b: nat): set<Token>
    requires b <= |n.nodes|
  {
    set i | a <= i < b :: n.nodes[i]
  }

  lemma {:induction false} NodesOf(n: Nfa, t: Tree, a: nat, nxi: int)
    requires WellFormed(t) && Flat(t) && Linked(n, t, a, nxi) && a + Count(t) <= |n.nodes|
    ensures NodesFrom(n, a, a + Count(t)) == Tokens(t)
    decreases t
  {
    hide Linked, WellFormed, Flat, NodesFrom, Count, Tokens;
    NodeParts(n, t, a, nxi);
    if t.Node? {
      var mid, hi := a + Count(t.left), a + Count(t.left) + Count(t.right);
      var nxl := if t.tok.Concat? then Start(t.right, mid, nxi) else if t.tok.DupAsterisk? then Idx(t, a) else nxi;
      NodesOf(n, t.left, a, nxl);
      NodesOf(n, t.right, mid, nxi);
      NodesJoin(n, a, mid, hi);
      if !t.tok.Concat? { NodesJoin(n, a, hi, hi + 1); }
    } else {
      NodesJoin(n, a, a, a);
    }
  }

  lemma NodesJoin(n: Nfa, a: nat, mid: nat, hi: nat)
    requires a <= mid <= hi <= |n.nodes|
    ensures NodesFrom(n, a, hi) == NodesFrom(n, a, mid) + NodesFrom(n, mid, hi)
    ensures mid + 1 == hi ==> NodesFrom(n, mid, hi) == {n.nodes[mid]}
    ensures a == hi ==> NodesFrom(n, a, hi) == {}
  {
  }

  lemma NodeParts(n: Nfa, t: Tree, a: nat, nxi: int)
    requires WellFormed(t) && Flat(t) && Linked(n, t, a, nxi)
    ensures t.Null? ==> Count(t) == 0 && Tokens(t) == {}
    ensures t.Node? ==>
      var mid := a + Count(t.left);
      var nxl := if t.tok.Concat? then Start(t.right, mid, nxi) else if t.tok.DupAsterisk? then Idx(t, a) else nxi;
      && WellFormed(t.left) && Flat(t.left) && Linked(n, t.left, a, nxl)
      && WellFormed(t.right) && Flat(t.right) && Linked(n, t.right, mid, nxi)
      && Count(t) == Count(t.left) + Count(t.right) + (if t.tok.Concat? then 0 else 1)
      && Tokens(t) == Tokens(t.left) + Tokens(t.right) + (if t.tok.Concat? then {} else {t.tok})
      && (!t.tok.Concat? ==> mid + Count(t.right) < |n.nodes| && n.nodes[mid + Count(t.right)] == t.tok)
  {
  }

  lemma {:induction false} TokensHave(t: Tree)
    ensures forall k :: k in Refs(t) <==> BackRef(k) in Tokens(t)
    ensures WellFormed(t) ==> forall k: nat :: OpenSubexp(k) in Brackets(t) <==> OpenSubexp(k) in Tokens(t)
    ensures WellFormed(t) ==> forall k: nat :: CloseSubexp(k) in Brackets(t) <==> CloseSubexp(k) in Tokens(t)
  {
    if t.Node? { TokensHave(t.left); TokensHave(t.right); RefsOf(t); }
  }

  /** Which groups have an OPEN and a CLOSE in the automaton, which numbers its back-references
      have, and where subexp_map sends the groups. */
  ghost predicate MarksAre(h: Store, t: Tree, noSub: bool, used: set<nat>) {
    var f := Outers(t);
    && (forall k: nat :: BackRef(k) in h.nodes <==> exists r :: r in Refs(t) && k == Final(f, r))
    && (forall k: nat :: OpenSubexp(k) in h.nodes <==> k in Marked(noSub, UsedAfter(t, f, used), Resolved(t, f)))
    && (forall k: nat :: CloseSubexp(k) in h.nodes <==> k in Marked(noSub, UsedAfter(t, f, used), Resolved(t, f)))
    && (forall k | 0 <= k < |h.subexpMap| :: h.subexpMap[k] == Final(f, k))
  }

  lemma MarkedNodes(h: Store, t: Tree, u: Tree, noSub: bool, used: set<nat>)
    requires GroupsMarked(t, u, noSub, used) && NodesFrom(Automaton(h), 0, |h.nodes|) == Tokens(u) && WellFormed(u)
    requires forall k | 0 <= k < |h.subexpMap| :: h.subexpMap[k] == Final(Outers(t), k)
    ensures MarksAre(h, t, noSub, used)
  {
    TokensHave(u);
    forall tok ensures tok in h.nodes <==> tok in Tokens(u) {
      assert tok in Tokens(u) <==> tok in NodesFrom(Automaton(h), 0, |h.nodes|);
    }
    hide Tokens, Brackets, Refs, Marked, Resolved, Outers, UsedAfter, WellFormed;
  }

  // ----- The later passes leave subexp_map alone -----

  ghost predicate KeepsMap(fn: Visitor) { forall h, p :: fn(h, p).subexpMap == h.subexpMap }

  lemma {:induction false} PostKeepsMap(fn: Visitor, f: Reshape, h: Store, t: Tree)
    requires KeepsMap(fn)
    ensures PostVisit(fn, f, h, t).0.subexpMap == h.subexpMap
    decreases t
  {
    if t.Node? {
      PostKeepsMap(fn, f, h, t.left);
      PostKeepsMap(fn, f, PostVisit(fn, f, h, t.left).0, t.right);
    }
  }

  lemma {:induction false} PreKeepsMap(fn: Visitor, f: Reshape, h: Store, t: Tree)
    requires KeepsMap(fn)
    ensures PreVisit(fn, f, h, t).0.subexpMap == h.subexpMap
    decreases Size(t)
  {
    if t.Node? {
      var t1 := f(h, t);
      if t1.Node? && Size(t1) <= Size(t) {
        PreKeepsMap(fn, f, fn(h, t.id), t1.left);
        PreKeepsMap(fn, f, PreVisit(fn, f, fn(h, t.id), t1.left).0, t1.right);
      }
    }
  }

  lemma LowerKeepsMap(h: Store, p: int)
    ensures LowerSubexps(h, p).subexpMap == h.subexpMap
  {
    hide CreateTree;
    CreateKeepsMap();
  }

  lemma CreateKeepsMap()
    ensures forall h, l, r, tok :: CreateTree(h, l, r, tok).subexpMap == h.subexpMap
  {
  }

  lemma PassesKeepMap()
    ensures KeepsMap(LowerSubexps) && KeepsMap(CalcFirst) && KeepsMap(CalcNext) && KeepsMap(LinkNfaNodes)
  {
    forall h, p ensures LowerSubexps(h, p).subexpMap == h.subexpMap { LowerKeepsMap(h, p); }
  }

  /** calc_first, calc_next, link_nfa_nodes. */
  lemma TablesLinked(h: Store, t: Tree) returns (nxi: int)
    requires t.Node? && WellFormed(t) && Distinct(t) && TreeAt(h, t, -1) && Parallel(h)
    ensures var x := PostVisit(CalcFirst, Unchanged, h, t); var y := PreVisit(CalcNext, Unchanged, x.0, t);
      var z := PreVisit(LinkNfaNodes, Unchanged, y.0, t); var a := |h.nodes|;
      && x.1 == t && y.1 == t && z.1 == t && Firsted(z.0, t, a) && Linked(Automaton(z.0), t, a, nxi)
      && Idx(t, a) < |z.0.nodes| == a + Count(t)
      && (a == 0 && Flat(t) ==> Idle(Automaton(z.0)))
  {
    hide Idle, Empty, Flat;
    hide PostVisit, PreVisit, CalcFirst, CalcNext, LinkNfaNodes, Firsted, Nexted, Linked, Distinct, WellFormed, Count, Idx, Ids;
    var a := |h.nodes|;
    FirstPass(h, t, -1);
    IdxRange(t, a);
    var x := PostVisit(CalcFirst, Unchanged, h, t);
    FirstFrameTree(h, x.0, Ids(t), t, -1);
    var nx := x.0.cells[t.id].next;
    NextPass(x.0, t, -1, a, nx);
    var y := PreVisit(CalcNext, Unchanged, x.0, t);
    NextFrameTree(x.0, y.0, Below(t), t, -1);
    FirstedNext(x.0, y.0, t, a, Below(t));
    LinkPass(y.0, t, -1, a, nx);
    var z := PreVisit(LinkNfaNodes, Unchanged, y.0, t);
    CellsDecide(y.0, z.0, t, -1, a);
    if a == 0 && Flat(t) {
      NoRows(h);
      FirstEmpty(h, t);
      EmptyIdle(x.0, y.0);
      LinkIdle(y.0, t, -1, a);
    }
    nxi := NodeIdxAt(y.0, nx);
  }

  lemma PatternFlat(t: Tree)
    requires IsPatternTree(t) && Flat(t.left) && Flat(t.right)
    ensures Flat(t)
  {
  }

  /** The automaton is closed under its epsilon edges and accepts what the tree matches. */
  lemma TablesDone(h: Store, t: Tree)
    requires IsPatternTree(t) && Distinct(t) && TreeAt(h, t, -1) && Parallel(h) && Flat(t.left) && Flat(t.right)
    ensures var x := PostVisit(CalcFirst, Unchanged, h, t); var y := PreVisit(CalcNext, Unchanged, x.0, t);
      var z := PreVisit(LinkNfaNodes, Unchanged, y.0, t);
      && x.1 == t && y.1 == t && z.1 == t && Firsted(z.0, t, |h.nodes|)
      && (|h.nodes| == 0 ==>
            RowsOk(Automaton(z.0)) && Closures.GraphOk(Automaton(z.0)) && NodesFrom(Automaton(z.0), 0, |z.0.nodes|) == Tokens(t))
      && Idx(t, |h.nodes|) < |z.0.nodes|
      && forall m, p, q :: Accepts(Automaton(z.0), m, Idx(t, |h.nodes|), p, q) <==> Matches(m, t, p, q)
  {
    hide PostVisit, PreVisit, Firsted, Linked, Accepts, Matches, Count, Idx, RowsOk, Idle;
    var n := Automaton(PreVisit(LinkNfaNodes, Unchanged, PreVisit(CalcNext, Unchanged, PostVisit(CalcFirst, Unchanged, h, t).0, t).0, t).0);
    var nxi := TablesLinked(h, t);
    if t.tok.Concat? { FlatInner(t.left); }
    PatternFlat(t);
    if |h.nodes| == 0 {
      PatternEdges(n, t, nxi);
      PatternRows(n, t, nxi);
      NodesOf(n, t, 0, nxi);
    }
    forall m, p, q ensures Accepts(n, m, Idx(t, |h.nodes|), p, q) <==> Matches(m, t, p, q) {
      PatternAccepts(n, m, t, |h.nodes|, nxi, p, q);
    }
  }

  /** analyze, up to the tables of edges. */
  method Analyze(dfa: Dfa, root: int, nsub: nat, ghost t: Tree) returns (ghost u: Tree)
    requires IsPatternTree(t) && t.id == root && Distinct(t) && TreeAt(dfa.st, t, -1) && Parallel(dfa.st)
    modifies dfa
    ensures Compiled(dfa.st, root, t)
    ensures |old(dfa.st).nodes| == 0 ==> Closures.GraphOk(Automaton(dfa.st)) && RowsOk(Automaton(dfa.st))
    ensures u.Node? && u.id == root && TreeAt(dfa.st, u, -1) && IsPatternTree(u) && Flat(u.left) && Flat(u.right)
    ensures |old(dfa.st).nodes| == 0 && NoBrackets(t) ==>
      forall c | InOrder(t, {}, c, 0, nsub) :: MarksAre(dfa.st, t, old(dfa.st).noSub, old(dfa.st).usedBkref)
    ensures |dfa.st.subexpMap| == nsub
  {
    assert t.Node?;
    hide TreeAt, IsPatternTree, Flat, Distinct, AgreesOnNested, SameSpans, Firsted, Accepts,
         PreVisit, PostVisit, Local, Shrinking, KeepsLinks, Compiled, Closures.GraphOk, Identity, Matches,
         RowsOk, InOrder, NoBrackets, GroupsMarked, MarksAre, Tokens, NodesFrom, Outers, Final, KeepsMap;
    var h0 := dfa.st.(subexpMap := seq(nsub, i requires 0 <= i => i));
    CellsDecideTree(dfa.st, h0, t, -1);
    IdentityStart(nsub);
    dfa.st := h0;
    GroupsDone(h0, t);
    OptimizeLocal();
    dfa.Preorder(root, OptimizeSubexps, OptimizeTree, t);
    ghost var x := PreVisit(OptimizeSubexps, OptimizeTree, h0, t);
    LowerLocal();
    dfa.Postorder(root, LowerSubexps, LowerTree, x.1);
    ghost var y := PostVisit(LowerSubexps, LowerTree, x.0, x.1);
    u := y.1;
    MarkedAll(h0, t, nsub);
    MapKept(h0, t, x, y);
    TablesDone(y.0, u);
    PassesKeepLinks();
    KeepsLinksLocal(CalcFirst);
    dfa.Postorder(root, CalcFirst, Unchanged, u);
    KeepsLinksLocal(CalcNext);
    dfa.Preorder(root, CalcNext, Unchanged, u);
    KeepsLinksLocal(LinkNfaNodes);
    dfa.Preorder(root, LinkNfaNodes, Unchanged, u);
    CompiledDone(dfa.st, root, t, u, |y.0.nodes|);
    if |y.0.nodes| == 0 && NoBrackets(t) {
      PatternWellFormed(u);
      forall c | InOrder(t, {}, c, 0, nsub) ensures MarksAre(dfa.st, t, h0.noSub, h0.usedBkref) {
        MarkedNodes(dfa.st, t, u, h0.noSub, h0.usedBkref);
      }
    }
  }

  lemma PatternWellFormed(t: Tree)
    requires IsPatternTree(t)
    ensures WellFormed(t)
  {
  }

  /** subexp_map after all passes is what optimize_subexps made of it. */
  lemma MapKept(h: Store, t: Tree, x: (Store, Tree), y: (Store, Tree))
    requires x == PreVisit(OptimizeSubexps, OptimizeTree, h, t) && y == PostVisit(LowerSubexps, LowerTree, x.0, x.1)
    requires IsPatternTree(t) && Distinct(t) && TreeAt(h, t, -1) && Identity(h.subexpMap)
    ensures var a := PostVisit(CalcFirst, Unchanged, y.0, y.1); var b := PreVisit(CalcNext, Unchanged, a.0, y.1);
      PreVisit(LinkNfaNodes, Unchanged, b.0, y.1).0.subexpMap == x.0.subexpMap
  {
    PassesKeepMap();
    hide PostVisit, PreVisit, KeepsMap;
    PostKeepsMap(LowerSubexps, LowerTree, x.0, x.1);
    PostKeepsMap(CalcFirst, Unchanged, y.0, y.1);
    var a := PostVisit(CalcFirst, Unchanged, y.0, y.1);
    PreKeepsMap(CalcNext, Unchanged, a.0, y.1);
    PreKeepsMap(LinkNfaNodes, Unchanged, PreVisit(CalcNext, Unchanged, a.0, y.1).0, y.1);
  }

  lemma MarkedAll(h: Store, t: Tree, nsub: nat)
    requires IsPatternTree(t) && Distinct(t) && TreeAt(h, t, -1) && Identity(h.subexpMap) && nsub == |h.subexpMap|
    ensures var x := PreVisit(OptimizeSubexps, OptimizeTree, h, t);
      && |x.0.subexpMap| == nsub
      && (NoBrackets(t) ==> forall c | InOrder(t, {}, c, 0, nsub) ::
            && GroupsMarked(t, PostVisit(LowerSubexps, LowerTree, x.0, x.1).1, h.noSub, h.usedBkref)
            && forall k | 0 <= k < nsub :: x.0.subexpMap[k] == Final(Outers(t), k))
  {
    MapLength(h, t);
    hide InOrder, GroupsMarked, PreVisit, PostVisit, Distinct, TreeAt, Identity, NoBrackets, Outers;
    if NoBrackets(t) {
      var x := PreVisit(OptimizeSubexps, OptimizeTree, h, t);
      forall c | InOrder(t, {}, c, 0, nsub)
        ensures GroupsMarked(t, PostVisit(LowerSubexps, LowerTree, x.0, x.1).1, h.noSub, h.usedBkref)
        ensures forall k | 0 <= k < nsub :: x.0.subexpMap[k] == Final(Outers(t), k)
      {
        PassesMark(h, t, c, nsub);
        GroupsResolved(h, t, c, nsub);
      }
    }
  }

  lemma {:induction false} MapLength(h: Store, t: Tree)
    ensures |PreVisit(OptimizeSubexps, OptimizeTree, h, t).0.subexpMap| == |h.subexpMap|
    decreases Size(t)
  {
    if t.Node? {
      var t1, h1 := OptimizeTree(h, t), OptimizeSubexps(h, t.id);
      assert |h1.subexpMap| == |h.subexpMap|;
      hide OptimizeTree, OptimizeSubexps;
      if t1.Node? && Size(t1) <= Size(t) {
        MapLength(h1, t1.left);
        MapLength(PreVisit(OptimizeSubexps, OptimizeTree, h1, t1.left).0, t1.right);
      }
    }
  }

  lemma IdentityStart(nsub: nat)
    ensures Identity(seq(nsub, i requires 0 <= i => i))
  {
  }

  lemma CompiledDone(h: Store, root: int, t: Tree, u: Tree, a: nat)
    requires IsPatternTree(u) && u.id == root && Firsted(h, u, a) && Idx(u, a) < |h.nodes|
    requires forall m | AgreesOnNested(m, t) :: SameSpans(m, t, u)
    requires forall m, p, q :: Accepts(Automaton(h), m, Idx(u, a), p, q) <==> Matches(m, u, p, q)
    ensures Compiled(h, root, t)
  {
    FirstIdx(h, u, a);
  }

  lemma {:induction false} CellsDecideTree(h: Store, h': Store, t: Tree, parent: int)
    requires h'.cells == h.cells && TreeAt(h, t, parent)
    ensures TreeAt(h', t, parent)
  {
    if t.Node? {
      CellsDecideTree(h, h', t.left, t.id);
      CellsDecideTree(h, h', t.right, t.id);
    }
  }
}
