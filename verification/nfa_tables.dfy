/** The rows of the automaton's tables, node by node. */
module NfaTables {
  import opened RegexTree
  import opened TreeStore
  import opened NfaPasses
  import opened NfaLanguage
  import opened NodeSets
  import opened Lowering

  /** What the row of a node holds: one that consumes goes on at `nexts`, and only for a
      back-reference is that its epsilon edge too; OPEN and CLOSE have one epsilon edge, the
      others one or two in increasing order, and no `nexts`; the end marker has nothing. */
  ghost predicate RowOk(n: Nfa, i: nat)
    requires i < |n.nodes| == |n.nexts| == |n.edests|
  {
    match n.nodes[i]
    case BackRef(_) => 0 <= n.nexts[i] < |n.nodes| && n.edests[i] == [n.nexts[i]]
    case Character(_) => 0 <= n.nexts[i] < |n.nodes| && n.edests[i] == []
    case SimpleBracket(_) => 0 <= n.nexts[i] < |n.nodes| && n.edests[i] == []
    case Period => 0 <= n.nexts[i] < |n.nodes| && n.edests[i] == []
    case EndOfRe => n.nexts[i] == -1 && n.edests[i] == []
    case OpenSubexp(_) => n.nexts[i] == -1 && |n.edests[i]| == 1
    case CloseSubexp(_) => n.nexts[i] == -1 && |n.edests[i]| == 1
    case Alt => n.nexts[i] == -1 && 1 <= |n.edests[i]| <= 2 && Sorted(n.edests[i])
    case DupAsterisk => n.nexts[i] == -1 && 1 <= |n.edests[i]| <= 2 && Sorted(n.edests[i])
    case _ => false
  }

  ghost predicate RowsOk(n: Nfa) {
    |n.nodes| == |n.nexts| == |n.edests| && forall i | 0 <= i < |n.nodes| :: RowOk(n, i)
  }

  /** The parts of the rows that no pass fills in. */
  ghost predicate Idle(n: Nfa) {
    && |n.nodes| == |n.nexts| == |n.edests|
    && (forall i | 0 <= i < |n.nodes| && (IsEpsilonNode(n.nodes[i]) || n.nodes[i].EndOfRe?) :: n.nexts[i] == -1)
    && (forall i | 0 <= i < |n.nodes| && !IsEpsilonNode(n.nodes[i]) && !n.nodes[i].BackRef? :: n.edests[i] == [])
  }

  /** Rows without any entry. */
  ghost predicate Empty(h: Store) {
    Parallel(h) && forall i | 0 <= i < |h.nodes| :: h.nexts[i] == -1 && h.edests[i] == []
  }

  lemma {:induction false} FirstEmpty(h: Store, t: Tree)
    requires Empty(h)
    ensures Empty(PostVisit(CalcFirst, Unchanged, h, t).0)
    decreases t
  {
    if t.Node? {
      FirstEmpty(h, t.left);
      FirstEmpty(PostVisit(CalcFirst, Unchanged, h, t.left).0, t.right);
    }
  }

  lemma NoRows(h: Store)
    requires Parallel(h) && |h.nodes| == 0
    ensures Empty(h)
  {
  }

  lemma EmptyIdle(h: Store, h': Store)
    requires Empty(h) && h' == h.(cells := h'.cells)
    ensures Idle(Automaton(h'))
  {
  }

  lemma LinkIdleCall(h: Store, p: nat)
    requires Idle(Automaton(h)) && IsSlot(h, p) && !h.cells[p].tok.Subexp?
    requires !h.cells[p].tok.Concat? ==>
      var i := h.cells[p].nodeIdx; 0 <= i < |h.nodes| && h.nodes[i] == h.cells[p].tok
    ensures var h' := LinkNfaNodes(h, p); Idle(Automaton(h')) && h'.cells == h.cells && h'.nodes == h.nodes
  {
  }

  lemma {:induction false} LinkIdle(h: Store, t: Tree, parent: int, a: nat)
    requires Idle(Automaton(h)) && TreeAt(h, t, parent) && Firsted(h, t, a) && Flat(t)
    ensures var h' := PreVisit(LinkNfaNodes, Unchanged, h, t).0; Idle(Automaton(h')) && h'.cells == h.cells && h'.nodes == h.nodes
    decreases t
  {
    hide Idle, LinkNfaNodes;
    if t.Node? {
      LinkIdleCall(h, t.id);
      var h1 := LinkNfaNodes(h, t.id);
      CellsDecide(h, h1, t, parent, a);
      LinkIdle(h1, t.left, t.id, a);
      var h2 := PreVisit(LinkNfaNodes, Unchanged, h1, t.left).0;
      CellsDecide(h1, h2, t, parent, a);
      LinkIdle(h2, t.right, t.id, a + Count(t.left));
    }
  }

  lemma {:induction false} InnerRows(n: Nfa, t: Tree, a: nat, nxi: int)
    requires WellFormed(t) && Inner(t) && Linked(n, t, a, nxi) && a + Count(t) <= |n.nodes| && 0 <= nxi < |n.nodes| && Idle(n)
    ensures forall i | a <= i < a + Count(t) :: RowOk(n, i)
    decreases t
  {
    hide Linked, WellFormed, Inner, Idle, RowOk;
    if t.Node? {
      LinkedRoot(n, t, a, nxi);
      IdxRange(t, a);
      var mid := a + Count(t.left);
      if t.left.Node? { IdxRange(t.left, a); }
      if t.right.Node? { IdxRange(t.right, mid); }
      if t.tok.Concat? {
        InnerRows(n, t.left, a, Idx(t.right, mid));
        InnerRows(n, t.right, mid, nxi);
      } else {
        NodeRow(n, t, a, nxi);
        if t.left.Node? { InnerRows(n, t.left, a, if t.tok.DupAsterisk? then Idx(t, a) else nxi); }
        if t.right.Node? { InnerRows(n, t.right, mid, nxi); }
      }
    }
  }

  lemma NodeRow(n: Nfa, t: Tree, a: nat, nxi: int)
    requires t.Node? && !t.tok.Concat? && WellFormed(t) && Inner(t) && Linked(n, t, a, nxi) && 0 <= nxi < |n.nodes| && Idle(n)
    ensures Idx(t, a) < |n.nodes| && RowOk(n, Idx(t, a))
  {
    hide Inner, WellFormed;
    assert !t.tok.Subexp? && !t.tok.EndOfRe? by { LinkedRoot(n, t, a, nxi); }
  }

  lemma PatternRows(n: Nfa, t: Tree, nxi: int)
    requires IsPatternTree(t) && (t.tok.Concat? ==> Inner(t.left)) && Linked(n, t, 0, nxi) && |n.nodes| == Count(t) && Idle(n)
    ensures RowsOk(n)
  {
    if t.tok.Concat? {
      var end := Idx(t.right, Count(t.left));
      assert Linked(n, t.left, 0, end) && Linked(n, t.right, Count(t.left), nxi);
      assert WellFormed(t.right);
      assert t.right.left.Null? && t.right.right.Null?;
      assert Count(t.right) == 1 && end == Count(t.left) && n.nodes[end].EndOfRe?;
      InnerRows(n, t.left, 0, end);
      hide Linked;
    } else {
      assert Count(t) == 1 && Idx(t, 0) == 0 && n.nodes[0].EndOfRe?;
    }
  }
}
