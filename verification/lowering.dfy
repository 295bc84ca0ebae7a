/** lower_subexps: groups become OPEN, body, CLOSE. */
module Lowering {
  import opened RegexTree
  import opened TreeStore
  import opened GroupPasses

  /** May the group be dropped without a trace? */
  predicate Droppable(h: Store, body: int, idx: nat) {
    h.noSub && body != -1 && (BITSET_WORD_BITS <= idx || idx !in h.usedBkref)
  }

  /** lower_subexp: the tree that replaces the group at `p`. */
  function LowerSubexp(h: Store, p: int): (Store, int) {
    if !IsSlot(h, p) || !h.cells[p].tok.Subexp? then (h, p)
    else
      var body, idx := h.cells[p].left, h.cells[p].tok.idx;
      if Droppable(h, body, idx) then (h, body)
      else
        var op := |h.cells|;
        var h1 := CreateTree(h, -1, -1, OpenSubexp(idx));
        var cls := |h1.cells|;
        var h2 := CreateTree(h1, -1, -1, CloseSubexp(idx));
        var tree1 := if body != -1 then |h2.cells| else cls;
        var h3 := if body != -1 then CreateTree(h2, body, cls, Concat) else h2;
        (CreateTree(h3, op, tree1, Concat), |h3.cells|)
  }

  function LowerGroup(h: Store, g: Tree): Tree {
    if g.Null? || !g.tok.Subexp? then g
    else if Droppable(h, Ptr(g.left), g.tok.idx) then g.left
    else
      var n := |h.cells|;
      var op, cls := Node(n, OpenSubexp(g.tok.idx), Null, Null), Node(n + 1, CloseSubexp(g.tok.idx), Null, Null);
      if g.left.Node? then Node(n + 3, Concat, op, Node(n + 2, Concat, g.left, cls))
      else Node(n + 2, Concat, op, cls)
  }

  function LowerLeft(h: Store, p: int): Store {
    if IsSlot(h, p) && IsSlot(h, h.cells[p].left) && h.cells[h.cells[p].left].tok.Subexp? then
      var (h1, q) := LowerSubexp(h, h.cells[p].left);
      if IsSlot(h1, p) then SetLeft(h1, p, q) else h
    else h
  }

  function LowerRight(h: Store, p: int): Store {
    if IsSlot(h, p) && IsSlot(h, h.cells[p].right) && h.cells[h.cells[p].right].tok.Subexp? then
      var (h1, q) := LowerSubexp(h, h.cells[p].right);
      if IsSlot(h1, p) then SetRight(h1, p, q) else h
    else h
  }

  /** lower_subexps on one node: first its left child, then its right child. */
  function LowerSubexps(h: Store, p: int): Store { LowerRight(LowerLeft(h, p), p) }

  function LowerLeftTree(h: Store, t: Tree): Tree {
    if t.Node? then t.(left := LowerGroup(h, t.left)) else t
  }

  function LowerRightTree(h: Store, t: Tree): Tree {
    if t.Node? then t.(right := LowerGroup(h, t.right)) else t
  }

  function LowerTree(h: Store, t: Tree): Tree {
    if t.Node? then LowerRightTree(LowerLeft(h, t.id), LowerLeftTree(h, t)) else t
  }

  /** What a replacement is made of: old slots of the body, and fresh ones. */
  ghost predicate Replaces(h: Store, h': Store, body: Tree, u: Tree, uParent: int) {
    && Distinct(u) && TreeAt(h', u, uParent)
    && |h.cells| <= |h'.cells|
    && (forall p | p in Ids(u) :: p in Ids(body) || |h.cells| <= p)
    && (forall p | 0 <= p < |h.cells| && p !in Ids(body) :: h'.cells[p] == h.cells[p])
  }

  lemma LowerSubexpAt(h: Store, g: Tree, parent: int) returns (uParent: int)
    requires g.Node? && g.tok.Subexp? && Distinct(g) && TreeAt(h, g, parent)
    ensures var (h', q) := LowerSubexp(h, g.id);
      q == Ptr(LowerGroup(h, g)) && Replaces(h, h', g.left, LowerGroup(h, g), uParent)
  {
    hide Replaces;
    var body, idx := g.left, g.tok.idx;
    BodyReplaces(h, g, parent);
    if Droppable(h, Ptr(body), idx) {
      uParent := g.id;
    } else {
      uParent := -1;
      var n := |h.cells|;
      var op, cls := Node(n, OpenSubexp(idx), Null, Null), Node(n + 1, CloseSubexp(idx), Null, Null);
      TwoLeaves(h, idx);
      LowerWithBody(h, CreateTree(CreateTree(h, -1, -1, OpenSubexp(idx)), -1, -1, CloseSubexp(idx)), g, parent, op, cls);
    }
  }

  lemma BodyReplaces(h: Store, g: Tree, parent: int)
    requires g.Node? && Distinct(g) && TreeAt(h, g, parent)
    ensures Replaces(h, h, g.left, g.left, g.id)
  {
  }

  /** The two new leaves. */
  lemma TwoLeaves(h: Store, idx: nat)
    ensures var n := |h.cells|; var h2 := CreateTree(CreateTree(h, -1, -1, OpenSubexp(idx)), -1, -1, CloseSubexp(idx));
      && |h2.cells| == n + 2 && (forall p | 0 <= p < n :: h2.cells[p] == h.cells[p])
      && TreeAt(h2, Node(n, OpenSubexp(idx), Null, Null), -1) && TreeAt(h2, Node(n + 1, CloseSubexp(idx), Null, Null), -1)
  {
    var h1 := CreateTree(h, -1, -1, OpenSubexp(idx));
    CreateTreeAt(h, Null, Null, -1, -1, OpenSubexp(idx));
    CreateTreeAt(h1, Null, Null, -1, -1, CloseSubexp(idx));
    TreeAtFrame(h1, CreateTree(h1, -1, -1, CloseSubexp(idx)), Node(|h.cells|, OpenSubexp(idx), Null, Null), -1);
  }

  /** The concatenations on top of the two new leaves. */
  lemma LowerWithBody(h: Store, h2: Store, g: Tree, parent: int, op: Tree, cls: Tree)
    requires g.Node? && Distinct(g) && TreeAt(h, g, parent)
    requires op.Node? && cls.Node?
    requires op == Node(|h.cells|, op.tok, Null, Null) && cls == Node(|h.cells| + 1, cls.tok, Null, Null)
    requires |h2.cells| == |h.cells| + 2 && forall p | 0 <= p < |h.cells| :: h2.cells[p] == h.cells[p]
    requires TreeAt(h2, op, -1) && TreeAt(h2, cls, -1)
    ensures var tree1 := if g.left.Node? then Node(|h2.cells|, Concat, g.left, cls) else cls;
      var h3 := if g.left.Node? then CreateTree(h2, g.left.id, cls.id, Concat) else h2;
      Replaces(h, CreateTree(h3, op.id, tree1.id, Concat), g.left, Node(|h3.cells|, Concat, op, tree1), -1)
  {
    var body := g.left;
    TreeAtSlots(h, body, g.id);
    TreeAtFrame(h, h2, body, g.id);
    assert body.Node? ==> body.id in Ids(body);
    if body.Node? {
      CreateTreeAt(h2, body, cls, g.id, -1, Concat);
      CreateTreeCells(h2, body.id, cls.id, Concat);
      var h3 := CreateTree(h2, body.id, cls.id, Concat);
      TreeAtFrame(h2, h3, op, -1);
      var tree1 := Node(|h2.cells|, Concat, body, cls);
      CreateTreeAt(h3, op, tree1, -1, -1, Concat);
      CreateTreeCells(h3, op.id, tree1.id, Concat);
    } else {
      CreateTreeAt(h2, op, cls, -1, -1, Concat);
      CreateTreeCells(h2, op.id, cls.id, Concat);
    }
  }

  /** The other child is not touched, and the replacement shares nothing with it. */
  lemma OtherChild(h: Store, h1: Store, id: nat, body: Tree, u: Tree, uParent: int, other: Tree)
    requires IsSlot(h, id) && TreeAt(h, other, id) && Replaces(h, h1, body, u, uParent)
    requires id !in Ids(body) && id !in Ids(other) && Ids(body) !! Ids(other)
    ensures IsSlot(h1, id) && h1.cells[id] == h.cells[id] && TreeAt(h1, other, id)
    ensures id !in Ids(u) && Ids(u) !! Ids(other)
  {
    hide TreeAt, Ids, Distinct;
    TreeAtSlots(h, other, id);
    forall p | p in Ids(other) ensures p !in Ids(u) && h1.cells[p] == h.cells[p] { assert p !in Ids(body); }
    TreeAtFrame(h, h1, other, id);
  }

  lemma LowerLeftGroup(h: Store, t: Tree, parent: int)
    requires t.Node? && Distinct(t) && TreeAt(h, t, parent) && t.left.Node? && t.left.tok.Subexp?
    ensures var h' := LowerLeft(h, t.id); var u := LowerGroup(h, t.left); var t' := t.(left := u);
      && Distinct(t') && TreeAt(h', t', parent) && |h.cells| <= |h'.cells|
      && (forall p | p in Ids(u) :: p in Ids(t.left) || |h.cells| <= p)
      && (forall p | 0 <= p < |h.cells| && p !in Ids(t) :: h'.cells[p] == h.cells[p])
  {
    hide LowerSubexp, LowerGroup;
    var g := t.left;
    assert h.cells[g.id].tok == g.tok;
    var uParent := LowerSubexpAt(h, g, t.id);
    var (h1, q) := LowerSubexp(h, g.id);
    var u := LowerGroup(h, g);
    assert Ids(g.left) <= Ids(t.left);
    OtherChild(h, h1, t.id, g.left, u, uParent, t.right);
    SetLeftAt(h1, t.id, t.tok, parent, u, uParent, t.right);
    assert u.Node? ==> u.id in Ids(u);
  }

  lemma LowerRightGroup(h: Store, t: Tree, parent: int)
    requires t.Node? && Distinct(t) && TreeAt(h, t, parent) && t.right.Node? && t.right.tok.Subexp?
    ensures var h' := LowerRight(h, t.id); var u := LowerGroup(h, t.right); var t' := t.(right := u);
      && Distinct(t') && TreeAt(h', t', parent) && |h.cells| <= |h'.cells|
      && (forall p | p in Ids(u) :: p in Ids(t.right) || |h.cells| <= p)
      && (forall p | 0 <= p < |h.cells| && p !in Ids(t) :: h'.cells[p] == h.cells[p])
  {
    hide LowerSubexp, LowerGroup;
    var g := t.right;
    assert h.cells[g.id].tok == g.tok;
    var uParent := LowerSubexpAt(h, g, t.id);
    var (h1, q) := LowerSubexp(h, g.id);
    var u := LowerGroup(h, g);
    assert Ids(g.left) <= Ids(t.right);
    OtherChild(h, h1, t.id, g.left, u, uParent, t.left);
    SetRightAt(h1, t.id, t.tok, parent, t.left, u, uParent);
    assert u.Node? ==> u.id in Ids(u);
  }

  lemma LowerLeftCall(h: Store, t: Tree, parent: int)
    requires t.Node? && Distinct(t) && TreeAt(h, t, parent)
    ensures LocalCall(LowerLeft, LowerLeftTree, h, t, parent)
  {
    if t.left.Node? {
      assert h.cells[t.left.id].tok == t.left.tok;
      if t.left.tok.Subexp? { LowerLeftGroup(h, t, parent); }
    }
  }

  lemma LowerRightCall(h: Store, t: Tree, parent: int)
    requires t.Node? && Distinct(t) && TreeAt(h, t, parent)
    ensures LocalCall(LowerRight, LowerRightTree, h, t, parent)
  {
    if t.right.Node? {
      assert h.cells[t.right.id].tok == t.right.tok;
      if t.right.tok.Subexp? { LowerRightGroup(h, t, parent); }
    }
  }

  lemma LowerCall(h: Store, t: Tree, parent: int)
    requires t.Node? && Distinct(t) && TreeAt(h, t, parent)
    ensures LocalCall(LowerSubexps, LowerTree, h, t, parent)
  {
    LowerLeftCall(h, t, parent);
    LowerRightCall(LowerLeft(h, t.id), LowerLeftTree(h, t), parent);
  }

  lemma LowerLocal()
    ensures Local(LowerSubexps, LowerTree)
  {
    forall h: Store, t: Tree, parent: int | t.Node? && Distinct(t) && TreeAt(h, t, parent)
      ensures LocalCall(LowerSubexps, LowerTree, h, t, parent)
    {
      LowerCall(h, t, parent);
    }
  }

  // ----- What the pass leaves -----

  /** No group is left anywhere in the tree. */
  ghost predicate Flat(t: Tree) {
    t.Node? ==> !t.tok.Subexp? && Flat(t.left) && Flat(t.right)
  }

  lemma LowerGroupSpans(m: Matcher, h: Store, g: Tree)
    requires WellFormed(g) && (g.Node? ==> Flat(g.left) && Flat(g.right))
    ensures SameSpans(m, g, LowerGroup(h, g)) && WellFormed(LowerGroup(h, g)) && Flat(LowerGroup(h, g))
    ensures LowerGroup(h, g).Null? <==> g.Null?
  {
    if g.Node? && g.tok.Subexp? && !Droppable(h, Ptr(g.left), g.tok.idx) {
      var u := LowerGroup(h, g);
      forall i: nat, j: nat ensures Matches(m, g, i, j) <==> Matches(m, u, i, j) {
        if i <= j {
          assert Matches(m, u.left, i, i);
          if g.left.Node? {
            assert Matches(m, u.right.right, j, j);
            assert Matches(m, u.right, i, j) <==> Matches(m, g.left, i, j);
          }
        }
      }
    }
  }

  /** lower_subexps over the whole tree keeps what it matches and leaves no group below the root. */
  lemma {:induction false} LowerPreserves(m: Matcher, h: Store, t: Tree)
    requires WellFormed(t)
    ensures var x := PostVisit(LowerSubexps, LowerTree, h, t);
      && SameSpans(m, t, x.1) && WellFormed(x.1)
      && (t.Null? <==> x.1.Null?) && (t.Node? ==> x.1.tok == t.tok && Flat(x.1.left) && Flat(x.1.right))
    decreases t
  {
    if t.Node? {
      var a := PostVisit(LowerSubexps, LowerTree, h, t.left);
      var b := PostVisit(LowerSubexps, LowerTree, a.0, t.right);
      LowerPreserves(m, h, t.left);
      LowerPreserves(m, a.0, t.right);
      var t0 := Node(t.id, t.tok, a.1, b.1);
      LowerGroupSpans(m, b.0, a.1);
      LowerGroupSpans(m, LowerLeft(b.0, t.id), b.1);
      var u := LowerTree(b.0, t0);
      CongruenceAll(m, t, u);
    }
  }

  // ----- OPEN and CLOSE pair up -----

  /** The OPEN and CLOSE leaves from left to right. */
  ghost function Brackets(t: Tree): seq<Token> {
    if t.Null? then []
    else if t.tok.OpenSubexp? || t.tok.CloseSubexp? then [t.tok]
    else Brackets(t.left) + Brackets(t.right)
  }

  /** Reading `s` with the groups of `stack` open closes every group in turn. */
  ghost predicate Nested(s: seq<Token>, stack: seq<nat>) {
    if s == [] then stack == []
    else if s[0].OpenSubexp? then Nested(s[1..], [s[0].idx] + stack)
    else if s[0].CloseSubexp? then stack != [] && stack[0] == s[0].idx && Nested(s[1..], stack[1..])
    else Nested(s[1..], stack)
  }

  /** `s` closes exactly the groups it opens, in order. */
  ghost predicate Balanced(s: seq<Token>) {
    forall rest: seq<Token>, stack: seq<nat> :: Nested(s + rest, stack) <==> Nested(rest, stack)
  }

  lemma BalancedAppend(a: seq<Token>, b: seq<Token>)
    requires Balanced(a) && Balanced(b)
    ensures Balanced(a + b)
  {
    forall rest: seq<Token>, stack: seq<nat> ensures Nested(a + b + rest, stack) <==> Nested(rest, stack) {
      assert a + b + rest == a + (b + rest);
    }
  }

  lemma BalancedWrap(k: nat, a: seq<Token>)
    requires Balanced(a)
    ensures Balanced([OpenSubexp(k)] + (a + [CloseSubexp(k)]))
  {
    forall rest: seq<Token>, stack: seq<nat>
      ensures Nested([OpenSubexp(k)] + (a + [CloseSubexp(k)]) + rest, stack) <==> Nested(rest, stack)
    {
      var s, inner := [OpenSubexp(k)] + (a + [CloseSubexp(k)]) + rest, [CloseSubexp(k)] + rest;
      assert s[1..] == a + inner;
      assert inner[1..] == rest && ([k] + stack)[1..] == stack;
    }
  }

  lemma BalancedEmpty()
    ensures Balanced([])
  {
    forall rest: seq<Token>, stack: seq<nat> ensures Nested([] + rest, stack) <==> Nested(rest, stack) {
      assert [] + rest == rest;
    }
  }

  /** The parser never builds OPEN or CLOSE nodes. */
  ghost predicate NoBrackets(t: Tree) {
    t.Node? ==> !t.tok.OpenSubexp? && !t.tok.CloseSubexp? && NoBrackets(t.left) && NoBrackets(t.right)
  }

  lemma LowerGroupBalanced(h: Store, g: Tree)
    requires Balanced(Brackets(g)) && (g.Node? && g.tok.Subexp? ==> Balanced(Brackets(g.left)))
    ensures Balanced(Brackets(LowerGroup(h, g)))
  {
    if g.Node? && g.tok.Subexp? && !Droppable(h, Ptr(g.left), g.tok.idx) {
      var k, u := g.tok.idx, LowerGroup(h, g);
      BalancedWrap(k, Brackets(g.left));
      if g.left.Null? {
        assert [] + [CloseSubexp(k)] == [CloseSubexp(k)];
      }
      assert Brackets(u) == [OpenSubexp(k)] + (Brackets(g.left) + [CloseSubexp(k)]);
    }
  }

  /** After the pass the OPEN and CLOSE leaves are properly nested. */
  lemma {:induction false} LowerNests(h: Store, t: Tree)
    requires WellFormed(t) && NoBrackets(t)
    ensures var u := PostVisit(LowerSubexps, LowerTree, h, t).1;
      && Balanced(Brackets(u)) && (u.Node? ==> Balanced(Brackets(u.left)) && Balanced(Brackets(u.right)))
    decreases t
  {
    BalancedEmpty();
    if t.Node? {
      var a := PostVisit(LowerSubexps, LowerTree, h, t.left);
      var b := PostVisit(LowerSubexps, LowerTree, a.0, t.right);
      LowerNests(h, t.left);
      LowerNests(a.0, t.right);
      LowerGroupBalanced(b.0, a.1);
      LowerGroupBalanced(LowerLeft(b.0, t.id), b.1);
      var u := LowerTree(b.0, Node(t.id, t.tok, a.1, b.1));
      BalancedAppend(Brackets(u.left), Brackets(u.right));
    }
  }

  // ----- Which OPEN and CLOSE nodes there are -----

  /** What decides whether a group keeps its OPEN and CLOSE. */
  ghost predicate SameFlags(h: Store, h': Store) { h'.noSub == h.noSub && h'.usedBkref == h.usedBkref }

  lemma LowerKeepsFlags(h: Store, p: int)
    ensures SameFlags(h, LowerLeft(h, p)) && SameFlags(h, LowerSubexps(h, p))
  {
  }

  /** The brackets that should be there: those of every group, except that with no_sub a
      group that has a body and is not referred to loses them. */
  ghost function KeptBrackets(h: Store, t: Tree): seq<Token> {
    if t.Null? then []
    else if t.tok.OpenSubexp? || t.tok.CloseSubexp? then [t.tok]
    else if t.tok.Subexp? && !(h.noSub && t.left.Node? && (t.tok.idx >= BITSET_WORD_BITS || t.tok.idx !in h.usedBkref)) then
      [OpenSubexp(t.tok.idx)] + KeptBrackets(h, t.left) + [CloseSubexp(t.tok.idx)]
    else if t.tok.Subexp? then KeptBrackets(h, t.left)
    else KeptBrackets(h, t.left) + KeptBrackets(h, t.right)
  }

  /** The brackets of a visited tree, before its parent replaces it if it is a group. */
  ghost predicate BracketsDone(h: Store, t: Tree, u: Tree) {
    && (t.Node? <==> u.Node?)
    && (t.Node? ==> u.tok == t.tok && (u.left.Null? <==> t.left.Null?))
    && Brackets(u) == KeptBrackets(h, if t.Node? && t.tok.Subexp? then t.left else t)
  }

  lemma LowerGroupBrackets(h: Store, h': Store, t: Tree, u: Tree)
    requires SameFlags(h, h') && WellFormed(t) && WellFormed(u) && BracketsDone(h, t, u)
    ensures Brackets(LowerGroup(h', u)) == KeptBrackets(h, t)
  {
    if u.Node? && u.tok.Subexp? {
      assert Brackets(u) == Brackets(u.left) + [] == Brackets(u.left);
      if u.left.Null? {
        assert KeptBrackets(h, t) == [OpenSubexp(u.tok.idx)] + [] + [CloseSubexp(u.tok.idx)];
      }
      if !Droppable(h', Ptr(u.left), u.tok.idx) && u.left.Node? {
        var k, v := u.tok.idx, LowerGroup(h', u);
        assert Brackets(v.left) == [OpenSubexp(k)] && Brackets(v.right.right) == [CloseSubexp(k)];
        assert Brackets(v) == [OpenSubexp(k)] + (Brackets(u.left) + [CloseSubexp(k)]);
      }
    }
  }

  /** One level of the visit. */
  lemma LowerVisit(h: Store, t: Tree)
    ensures t.Null? ==> PostVisit(LowerSubexps, LowerTree, h, t) == (h, t)
    ensures t.Node? && WellFormed(t) ==> WellFormed(t.left) && WellFormed(t.right)
    ensures t.Node? ==>
      var a := PostVisit(LowerSubexps, LowerTree, h, t.left);
      var b := PostVisit(LowerSubexps, LowerTree, a.0, t.right);
      var x := PostVisit(LowerSubexps, LowerTree, h, t);
      && x.0 == LowerSubexps(b.0, t.id) && x.1.Node? && x.1.tok == t.tok
      && x.1.left == LowerGroup(b.0, a.1) && x.1.right == LowerGroup(LowerLeft(b.0, t.id), b.1)
  {
    hide LowerSubexps, LowerLeft, LowerGroup;
  }

  /** The pass keeps, in order, exactly the brackets it should. */
  lemma {:induction false} LowerBrackets(h: Store, t: Tree)
    requires WellFormed(t)
    ensures var x := PostVisit(LowerSubexps, LowerTree, h, t);
      SameFlags(h, x.0) && WellFormed(x.1) && BracketsDone(h, t, x.1)
    decreases t
  {
    hide LowerSubexps, LowerLeft, LowerGroup, LowerTree, PostVisit, WellFormed;
    LowerVisit(h, t);
    if t.Node? {
      var a := PostVisit(LowerSubexps, LowerTree, h, t.left);
      var b := PostVisit(LowerSubexps, LowerTree, a.0, t.right);
      LowerBrackets(h, t.left);
      LowerBrackets(a.0, t.right);
      SameKept(h, a.0, t.right);
      SameKept(h, a.0, if t.right.Node? then t.right.left else t.right);
      LowerKeepsFlags(b.0, t.id);
      LowerGroupBrackets(h, b.0, t.left, a.1);
      LowerGroupBrackets(h, LowerLeft(b.0, t.id), t.right, b.1);
      LowerGroupNull(b.0, a.1);
      LowerPreserves((tok, i, j) => false, h, t);
    }
  }

  lemma LowerGroupNull(h: Store, g: Tree)
    ensures WellFormed(g) ==> (LowerGroup(h, g).Null? <==> g.Null?)
  {
  }

  lemma {:induction false} SameKept(h: Store, h': Store, t: Tree)
    requires SameFlags(h, h')
    ensures KeptBrackets(h', t) == KeptBrackets(h, t)
  {
    if t.Node? { SameKept(h, h', t.left); SameKept(h, h', t.right); }
  }

  /** A group that is referred to keeps its brackets. */
  lemma {:induction false} ReferredGroupKept(h: Store, t: Tree, k: nat)
    requires WellFormed(t) && k in Groups(t) && k < BITSET_WORD_BITS && k in h.usedBkref
    ensures OpenSubexp(k) in KeptBrackets(h, t) && CloseSubexp(k) in KeptBrackets(h, t)
  {
    if t.tok.Subexp? {
      if t.tok.idx != k { ReferredGroupKept(h, t.left, k); }
    } else if k in Groups(t.left) {
      ReferredGroupKept(h, t.left, k);
    } else {
      ReferredGroupKept(h, t.right, k);
    }
  }
}
