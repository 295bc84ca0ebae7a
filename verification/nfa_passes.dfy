/** calc_first, calc_next and link_nfa_nodes: from a lowered tree to the automaton's tables. */
module NfaPasses {
  import opened RegexTree
  import opened TreeStore

  // ----- The passes, node by node -----

  /** re_dfa_add_node */
  function AddNode(h: Store, tok: Token): Store {
    h.(nodes := h.nodes + [tok], nexts := h.nexts + [-1], edests := h.edests + [[]])
  }

  function CalcFirst(h: Store, p: int): Store {
    if !IsSlot(h, p) then h
    else if h.cells[p].tok.Concat? then
      if IsSlot(h, h.cells[p].left) then
        var l := h.cells[h.cells[p].left];
        h.(cells := h.cells[p := h.cells[p].(first := l.first, nodeIdx := l.nodeIdx)])
      else h
    else
      AddNode(h, h.cells[p].tok).(cells := h.cells[p := h.cells[p].(first := p, nodeIdx := |h.nodes|)])
  }

  function SetNext(h: Store, p: int, next: int): Store {
    if IsSlot(h, p) then h.(cells := h.cells[p := h.cells[p].(next := next)]) else h
  }

  function CalcNext(h: Store, p: int): Store {
    if !IsSlot(h, p) then h
    else
      var cell := h.cells[p];
      match cell.tok
      case DupAsterisk => SetNext(h, cell.left, p)
      case Concat =>
        if IsSlot(h, cell.right) then
          SetNext(SetNext(h, cell.left, h.cells[cell.right].first), cell.right, cell.next)
        else h
      case _ => SetNext(SetNext(h, cell.left, cell.next), cell.right, cell.next)
  }

  /** re_node_set_init_2 */
  function InitTwo(a: int, b: int): seq<int> {
    if a == b then [a] else if a < b then [a, b] else [b, a]
  }

  function NodeIdxAt(h: Store, p: int): int { if IsSlot(h, p) then h.cells[p].nodeIdx else -1 }

  /** node->left->first->node_idx, or node->next->node_idx when there is no left child. */
  function EdgeTarget(h: Store, child: int, next: int): int {
    if IsSlot(h, child) then NodeIdxAt(h, h.cells[child].first) else NodeIdxAt(h, next)
  }

  function LinkNfaNodes(h: Store, p: int): Store {
    if !IsSlot(h, p) then h
    else
      var cell := h.cells[p];
      var idx := cell.nodeIdx;
      if !(0 <= idx < |h.edests|) || !(idx < |h.nexts|) then h
      else
        match cell.tok
        case Concat => h
        case EndOfRe => h
        case DupAsterisk => h.(edests := h.edests[idx := InitTwo(EdgeTarget(h, cell.left, cell.next),
            EdgeTarget(h, cell.right, cell.next))])
        case Alt => h.(edests := h.edests[idx := InitTwo(EdgeTarget(h, cell.left, cell.next), EdgeTarget(h, cell.right, cell.next))])
        case OpenSubexp(_) => h.(edests := h.edests[idx := [NodeIdxAt(h, cell.next)]])
        case CloseSubexp(_) => h.(edests := h.edests[idx := [NodeIdxAt(h, cell.next)]])
        case BackRef(_) => h.(nexts := h.nexts[idx := NodeIdxAt(h, cell.next)], edests := h.edests[idx := [NodeIdxAt(h, cell.next)]])
        case _ => h.(nexts := h.nexts[idx := NodeIdxAt(h, cell.next)])
  }

  /** These passes leave the tree as it is. */
  function Unchanged(h: Store, t: Tree): Tree { t }

  ghost predicate KeepsLinks(fn: Visitor) {
    forall h: Store, p: int :: |fn(h, p).cells| == |h.cells| &&
      forall q | 0 <= q < |h.cells| :: SameLinks(h, fn(h, p), q)
  }

  lemma KeepsLinksLocal(fn: Visitor)
    requires KeepsLinks(fn)
    ensures Local(fn, Unchanged) && Shrinking(Unchanged)
  {
    forall h: Store, t: Tree, parent: int | t.Node? && Distinct(t) && TreeAt(h, t, parent)
      ensures LocalCall(fn, Unchanged, h, t, parent)
    {
      TreeAtSlots(h, t, parent);
      assert |fn(h, t.id).cells| == |h.cells|;
      TreeAtFrame(h, fn(h, t.id), t, parent);
    }
  }

  lemma PassesKeepLinks()
    ensures KeepsLinks(CalcFirst) && KeepsLinks(CalcNext) && KeepsLinks(LinkNfaNodes)
  {
  }

  // ----- Numbering: what calc_first computes -----

  /** Automaton nodes of a tree: one for each node that is not a concatenation. */
  ghost function Count(t: Tree): nat {
    if t.Null? then 0 else Count(t.left) + Count(t.right) + if t.tok.Concat? then 0 else 1
  }

  /** The automaton node where a match of `t` starts, when numbering started at `a`. */
  ghost function Idx(t: Tree, a: nat): nat {
    if t.Null? then a
    else if t.tok.Concat? then Idx(t.left, a)
    else a + Count(t) - 1
  }

  ghost function FirstId(t: Tree): int {
    if t.Null? then -1 else if t.tok.Concat? then FirstId(t.left) else t.id
  }

  ghost predicate Firsted(h: Store, t: Tree, a: nat) {
    t.Node? ==>
      && IsSlot(h, t.id) && h.cells[t.id].first == FirstId(t) && h.cells[t.id].nodeIdx == Idx(t, a)
      && Firsted(h, t.left, a) && Firsted(h, t.right, a + Count(t.left))
      && (!t.tok.Concat? ==> Idx(t, a) < |h.nodes| && h.nodes[Idx(t, a)] == t.tok)
  }

  ghost predicate Parallel(h: Store) { |h.nodes| == |h.nexts| == |h.edests| }

  /** What one call or a visit of calc_first may change. */
  ghost predicate FirstFrame(h: Store, h': Store, ids: set<nat>) {
    && |h'.cells| == |h.cells|
    && (forall p | 0 <= p < |h.cells| :: SameLinks(h, h', p) && h'.cells[p].next == h.cells[p].next)
    && (forall p | 0 <= p < |h.cells| && p !in ids :: h'.cells[p] == h.cells[p])
    && |h.nodes| <= |h'.nodes| && h'.nodes[..|h.nodes|] == h.nodes
  }

  lemma {:induction false} FirstedFrame(h: Store, h': Store, t: Tree, a: nat, ids: set<nat>)
    requires Firsted(h, t, a) && FirstFrame(h, h', ids) && Ids(t) !! ids
    ensures Firsted(h', t, a)
  {
    if t.Node? {
      assert t.id in Ids(t);
      FirstedFrame(h, h', t.left, a, ids);
      FirstedFrame(h, h', t.right, a + Count(t.left), ids);
      if !t.tok.Concat? { assert h'.nodes[Idx(t, a)] == h'.nodes[..|h.nodes|][Idx(t, a)]; }
    }
  }

  lemma FirstFrameTrans(h0: Store, h1: Store, h2: Store, a: set<nat>, b: set<nat>, c: set<nat>)
    requires FirstFrame(h0, h1, a) && FirstFrame(h1, h2, b) && a <= c && b <= c
    ensures FirstFrame(h0, h2, c)
  {
    assert h2.nodes[..|h0.nodes|] == h2.nodes[..|h1.nodes|][..|h0.nodes|];
  }

  lemma FirstCall(h: Store, t: Tree, parent: int, a: nat)
    requires t.Node? && Distinct(t) && TreeAt(h, t, parent) && WellFormed(t) && Parallel(h)
    requires Firsted(h, t.left, a) && Firsted(h, t.right, a + Count(t.left))
    requires |h.nodes| == a + Count(t.left) + Count(t.right)
    ensures var h' := CalcFirst(h, t.id);
      && Firsted(h', t, a) && |h'.nodes| == a + Count(t) && Parallel(h') && FirstFrame(h, h', {t.id})
  {
    var h' := CalcFirst(h, t.id);
    assert FirstFrame(h, h', {t.id});
    FirstedFrame(h, h', t.left, a, {t.id});
    FirstedFrame(h, h', t.right, a + Count(t.left), {t.id});
  }

  lemma FirstNull(h: Store, a: nat, ids: set<nat>)
    ensures Firsted(h, Null, a) && Count(Null) == 0 && FirstFrame(h, h, ids)
  {
  }

  /** What holds of a tree in the arena holds of its children. */
  lemma Children(h: Store, t: Tree, parent: int)
    requires t.Node? && Distinct(t) && TreeAt(h, t, parent) && WellFormed(t)
    ensures Distinct(t.left) && TreeAt(h, t.left, t.id) && WellFormed(t.left)
    ensures Distinct(t.right) && TreeAt(h, t.right, t.id) && WellFormed(t.right)
    ensures Ids(t.left) !! Ids(t.right) && Ids(t.left) <= Ids(t) && Ids(t.right) <= Ids(t) && {t.id} <= Ids(t)
  {
  }

  /** calc_first in postorder numbers the tree from |nodes| on, and `first` is the node
      a match starts at. */
  lemma {:induction false} FirstPass(h: Store, t: Tree, parent: int)
    requires Distinct(t) && TreeAt(h, t, parent) && WellFormed(t) && Parallel(h)
    ensures var x := PostVisit(CalcFirst, Unchanged, h, t);
      && x.1 == t && Firsted(x.0, t, |h.nodes|) && |x.0.nodes| == |h.nodes| + Count(t)
      && Parallel(x.0) && FirstFrame(h, x.0, Ids(t))
    decreases t
  {
    hide CalcFirst, FirstFrame, Firsted, TreeAt, Parallel, WellFormed, Count, Distinct, Ids;
    FirstNull(h, |h.nodes|, Ids(t));
    if t.Node? {
      var n := |h.nodes|;
      Children(h, t, parent);
      var a := PostVisit(CalcFirst, Unchanged, h, t.left);
      FirstPass(h, t.left, t.id);
      FirstFrameTree(h, a.0, Ids(t.left), t, parent);
      Children(a.0, t, parent);
      var b := PostVisit(CalcFirst, Unchanged, a.0, t.right);
      FirstPass(a.0, t.right, t.id);
      FirstFrameTree(a.0, b.0, Ids(t.right), t, parent);
      FirstedFrame(a.0, b.0, t.left, n, Ids(t.right));
      FirstCall(b.0, t, parent, n);
      FirstFrameTrans(h, a.0, b.0, Ids(t.left), Ids(t.right), Ids(t));
      FirstFrameTrans(h, b.0, CalcFirst(b.0, t.id), Ids(t), {t.id}, Ids(t));
    }
  }

  lemma FirstFrameTree(h: Store, h': Store, ids: set<nat>, t: Tree, parent: int)
    requires FirstFrame(h, h', ids) && TreeAt(h, t, parent)
    ensures TreeAt(h', t, parent)
  {
    TreeAtSlots(h, t, parent);
    TreeAtFrame(h, h', t, parent);
  }

  // ----- Continuations: what calc_next computes -----

  /** `nx` is where the match goes on after `t`. */
  ghost predicate Nexted(h: Store, t: Tree, nx: int) {
    t.Node? ==>
      && IsSlot(h, t.id) && h.cells[t.id].next == nx
      && match t.tok
         case DupAsterisk => Nexted(h, t.left, t.id)
         case Concat => Nexted(h, t.left, FirstId(t.right)) && Nexted(h, t.right, nx)
         case _ => Nexted(h, t.left, nx) && Nexted(h, t.right, nx)
  }

  ghost predicate NextFrame(h: Store, h': Store, ids: set<nat>) {
    && |h'.cells| == |h.cells|
    && (forall p | 0 <= p < |h.cells| :: h'.cells[p] == h.cells[p].(next := h'.cells[p].next))
    && (forall p | 0 <= p < |h.cells| && p !in ids :: h'.cells[p] == h.cells[p])
    && h' == h.(cells := h'.cells)
  }

  lemma {:induction false} NextedFrame(h: Store, h': Store, t: Tree, nx: int, ids: set<nat>)
    requires Nexted(h, t, nx) && NextFrame(h, h', ids) && Ids(t) !! ids
    ensures Nexted(h', t, nx)
    decreases t
  {
    if t.Node? {
      assert t.id in Ids(t);
      match t.tok
      case DupAsterisk => NextedFrame(h, h', t.left, t.id, ids);
      case Concat => NextedFrame(h, h', t.left, FirstId(t.right), ids); NextedFrame(h, h', t.right, nx, ids);
      case _ => NextedFrame(h, h', t.left, nx, ids); NextedFrame(h, h', t.right, nx, ids);
    }
  }

  lemma {:induction false} FirstedNext(h: Store, h': Store, t: Tree, a: nat, ids: set<nat>)
    requires Firsted(h, t, a) && NextFrame(h, h', ids)
    ensures Firsted(h', t, a)
  {
    if t.Node? {
      FirstedNext(h, h', t.left, a, ids);
      FirstedNext(h, h', t.right, a + Count(t.left), ids);
    }
  }

  ghost function Below(t: Tree): set<nat> { if t.Null? then {} else Ids(t.left) + Ids(t.right) }

  lemma NextFrameTrans(h0: Store, h1: Store, h2: Store, a: set<nat>, b: set<nat>, c: set<nat>)
    requires NextFrame(h0, h1, a) && NextFrame(h1, h2, b) && a <= c && b <= c
    ensures NextFrame(h0, h2, c)
  {
  }

  lemma NextFrameTree(h: Store, h': Store, ids: set<nat>, t: Tree, parent: int)
    requires NextFrame(h, h', ids) && TreeAt(h, t, parent)
    ensures TreeAt(h', t, parent)
  {
    TreeAtSlots(h, t, parent);
    TreeAtFrame(h, h', t, parent);
  }

  /** Where the match goes on after the left and after the right child. */
  ghost function AfterLeft(t: Tree, nx: int): int
    requires t.Node?
  {
    if t.tok.DupAsterisk? then t.id else if t.tok.Concat? then FirstId(t.right) else nx
  }

  lemma NextCall(h: Store, t: Tree, parent: int, a: nat, nx: int)
    requires t.Node? && Distinct(t) && TreeAt(h, t, parent) && WellFormed(t) && Firsted(h, t, a)
    requires h.cells[t.id].next == nx
    ensures var h' := CalcNext(h, t.id);
      && NextFrame(h, h', Below(t)) && h'.cells[t.id].next == nx
      && (t.left.Node? ==> IsSlot(h', t.left.id) && h'.cells[t.left.id].next == AfterLeft(t, nx))
      && (t.right.Node? ==> IsSlot(h', t.right.id) && h'.cells[t.right.id].next == nx)
  {
    assert t.left.Node? ==> t.left.id in Ids(t.left);
    assert t.right.Node? ==> t.right.id in Ids(t.right);
  }

  /** calc_next in preorder gives every node its continuation. */
  lemma {:induction false} NextPass(h: Store, t: Tree, parent: int, a: nat, nx: int)
    requires Distinct(t) && TreeAt(h, t, parent) && WellFormed(t) && Firsted(h, t, a)
    requires t.Node? ==> h.cells[t.id].next == nx
    ensures var x := PreVisit(CalcNext, Unchanged, h, t);
      && x.1 == t && Nexted(x.0, t, nx) && NextFrame(h, x.0, Below(t))
    decreases t
  {
    if t.Node? {
      hide CalcNext, Firsted;
      var h1 := CalcNext(h, t.id);
      NextCall(h, t, parent, a, nx);
      NextFrameTree(h, h1, Below(t), t, parent);
      FirstedNext(h, h1, t, a, Below(t));
      FirstedParts(h1, t, a);
      NextPass(h1, t.left, t.id, a, AfterLeft(t, nx));
      var x := PreVisit(CalcNext, Unchanged, h1, t.left);
      NextFrameTree(h1, x.0, Below(t.left), t, parent);
      FirstedNext(h1, x.0, t.right, a + Count(t.left), Below(t.left));
      assert t.right.Node? ==> t.right.id in Ids(t.right);
      NextPass(x.0, t.right, t.id, a + Count(t.left), nx);
      var y := PreVisit(CalcNext, Unchanged, x.0, t.right);
      NextedFrame(x.0, y.0, t.left, AfterLeft(t, nx), Below(t.right));
      NextFrameTrans(h, h1, x.0, Below(t), Below(t.left), Below(t));
      NextFrameTrans(h, x.0, y.0, Below(t), Below(t.right), Below(t));
    }
  }

  lemma FirstedParts(h: Store, t: Tree, a: nat)
    requires t.Node? && Firsted(h, t, a)
    ensures Firsted(h, t.left, a) && Firsted(h, t.right, a + Count(t.left))
  {
  }

  // ----- Edges: what link_nfa_nodes computes -----

  /** The automaton's tables. */
  datatype Nfa = Nfa(nodes: seq<Token>, nexts: seq<int>, edests: seq<seq<int>>)

  function Automaton(h: Store): Nfa { Nfa(h.nodes, h.nexts, h.edests) }

  /** Where a match of `t` starts; the continuation itself if there is no tree. */
  ghost function Start(t: Tree, a: nat, nxi: int): int { if t.Null? then nxi else Idx(t, a) }

  /** The nodes numbered from `a` on are the automaton of `t`, continuing at node `nxi`. */
  ghost predicate Linked(n: Nfa, t: Tree, a: nat, nxi: int) {
    t.Node? ==>
      var i := Idx(t, a);
      && i < |n.nodes| == |n.nexts| == |n.edests|
      && (!t.tok.Concat? ==> n.nodes[i] == t.tok)
      && match t.tok
         case Concat => Linked(n, t.left, a, Start(t.right, a + Count(t.left), nxi)) && Linked(n, t.right, a + Count(t.left), nxi)
         case DupAsterisk => n.edests[i] == InitTwo(Start(t.left, a, nxi), nxi) && Linked(n, t.left, a, i)
         case Alt =>
           && n.edests[i] == InitTwo(Start(t.left, a, nxi), Start(t.right, a + Count(t.left), nxi))
           && Linked(n, t.left, a, nxi) && Linked(n, t.right, a + Count(t.left), nxi)
         case OpenSubexp(_) => n.edests[i] == [nxi]
         case CloseSubexp(_) => n.edests[i] == [nxi]
         case EndOfRe => true
         case Subexp(_) => true
         case BackRef(_) => n.nexts[i] == nxi && n.edests[i] == [nxi]
         case _ => n.nexts[i] == nxi
  }

  ghost predicate LinkFrame(h: Store, h': Store, lo: int, hi: int) {
    && h' == h.(nexts := h'.nexts, edests := h'.edests)
    && |h'.nexts| == |h.nexts| && |h'.edests| == |h.edests|
    && (forall k | 0 <= k < |h.nexts| && !(lo <= k < hi) :: h'.nexts[k] == h.nexts[k])
    && (forall k | 0 <= k < |h.edests| && !(lo <= k < hi) :: h'.edests[k] == h.edests[k])
  }

  lemma {:induction false} IdxRange(t: Tree, a: nat)
    requires WellFormed(t) && t.Node?
    ensures a <= Idx(t, a) < a + Count(t)
  {
    if t.tok.Concat? { IdxRange(t.left, a); }
  }

  lemma FrameAt(h: Store, h': Store, lo: int, hi: int, i: nat)
    requires LinkFrame(h, h', lo, hi) && !(lo <= i < hi)
    ensures h'.nodes == h.nodes && |h'.nexts| == |h.nexts| && |h'.edests| == |h.edests|
    ensures (i < |h.nexts| ==> h'.nexts[i] == h.nexts[i]) && (i < |h.edests| ==> h'.edests[i] == h.edests[i])
  {
  }

  lemma {:induction false} LinkedFrame(h: Store, h': Store, t: Tree, a: nat, nxi: int, lo: int, hi: int)
    requires WellFormed(t) && Linked(Automaton(h), t, a, nxi) && LinkFrame(h, h', lo, hi)
    requires a + Count(t) <= lo || hi <= a
    ensures Linked(Automaton(h'), t, a, nxi)
    decreases t
  {
    if t.Node? {
      IdxRange(t, a);
      FrameAt(h, h', lo, hi, Idx(t, a));
      hide LinkFrame, Idx, Start;
      match t.tok
      case Concat =>
        LinkedFrame(h, h', t.left, a, Start(t.right, a + Count(t.left), nxi), lo, hi);
        LinkedFrame(h, h', t.right, a + Count(t.left), nxi, lo, hi);
      case DupAsterisk => LinkedFrame(h, h', t.left, a, Idx(t, a), lo, hi);
      case Alt =>
        LinkedFrame(h, h', t.left, a, nxi, lo, hi);
        LinkedFrame(h, h', t.right, a + Count(t.left), nxi, lo, hi);
      case _ =>
    }
  }

  /** The node at `first` carries the index a match starts at. */
  lemma {:induction false} FirstIdx(h: Store, t: Tree, a: nat)
    requires t.Node? && WellFormed(t) && Firsted(h, t, a)
    ensures NodeIdxAt(h, FirstId(t)) == Idx(t, a) && IsSlot(h, t.id) && h.cells[t.id].first == FirstId(t)
  {
    if t.tok.Concat? { FirstIdx(h, t.left, a); }
  }

  /** The part of `Linked` that one call on the node itself sets up. */
  ghost predicate LinkedHere(n: Nfa, t: Tree, a: nat, nxi: int)
    requires t.Node?
  {
    var i := Idx(t, a);
    && i < |n.nodes| == |n.nexts| == |n.edests|
    && (!t.tok.Concat? ==> n.nodes[i] == t.tok)
    && match t.tok
       case DupAsterisk => n.edests[i] == InitTwo(Start(t.left, a, nxi), nxi)
       case Alt => n.edests[i] == InitTwo(Start(t.left, a, nxi), Start(t.right, a + Count(t.left), nxi))
       case OpenSubexp(_) => n.edests[i] == [nxi]
       case CloseSubexp(_) => n.edests[i] == [nxi]
       case Concat => true
       case EndOfRe => true
       case Subexp(_) => true
       case BackRef(_) => n.nexts[i] == nxi && n.edests[i] == [nxi]
       case _ => n.nexts[i] == nxi
  }

  /** What link_nfa_nodes reads off the cells. */
  lemma LinkReads(h: Store, t: Tree, parent: int, a: nat, nx: int)
    requires t.Node? && TreeAt(h, t, parent) && WellFormed(t) && Firsted(h, t, a) && Nexted(h, t, nx)
    ensures IsSlot(h, t.id) && h.cells[t.id].nodeIdx == Idx(t, a) && h.cells[t.id].tok == t.tok && h.cells[t.id].next == nx
    ensures EdgeTarget(h, h.cells[t.id].left, nx) == Start(t.left, a, NodeIdxAt(h, nx))
    ensures EdgeTarget(h, h.cells[t.id].right, nx) == Start(t.right, a + Count(t.left), NodeIdxAt(h, nx))
    ensures !t.tok.Concat? ==> Idx(t, a) < |h.nodes| && h.nodes[Idx(t, a)] == t.tok
  {
    if t.left.Node? { FirstIdx(h, t.left, a); }
    if t.right.Node? { FirstIdx(h, t.right, a + Count(t.left)); }
  }

  lemma LinkCall(h: Store, t: Tree, parent: int, a: nat, nx: int)
    requires t.Node? && TreeAt(h, t, parent) && WellFormed(t) && Firsted(h, t, a) && Nexted(h, t, nx)
    requires Parallel(h) && a + Count(t) <= |h.nodes|
    ensures var h' := LinkNfaNodes(h, t.id); var lo := a + Count(t.left) + Count(t.right);
      && LinkFrame(h, h', lo, a + Count(t)) && LinkedHere(Automaton(h'), t, a, NodeIdxAt(h, nx))
  {
    hide TreeAt, Firsted, Nexted, EdgeTarget, Start, NodeIdxAt, InitTwo;
    LinkReads(h, t, parent, a, nx);
    IdxRange(t, a);
    StartNull(a + Count(t.left), NodeIdxAt(h, nx));
    var cell, h' := h.cells[t.id], LinkNfaNodes(h, t.id);
    if t.tok.DupAsterisk? || t.tok.Alt? {
      assert h'.edests == h.edests[Idx(t, a) := InitTwo(EdgeTarget(h, cell.left, nx), EdgeTarget(h, cell.right, nx))];
    } else if t.tok.OpenSubexp? || t.tok.CloseSubexp? {
      assert h'.edests == h.edests[Idx(t, a) := [NodeIdxAt(h, nx)]];
    }
  }

  lemma StartNull(a: nat, nxi: int)
    ensures Start(Null, a, nxi) == nxi
  {
  }

  lemma NextedParts(h: Store, t: Tree, nx: int)
    requires t.Node? && Nexted(h, t, nx) && WellFormed(t)
    ensures Nexted(h, t.left, AfterLeft(t, nx)) && Nexted(h, t.right, nx)
  {
  }

  /** The tree and its annotations live in the cells and the token table alone. */
  lemma {:induction false} CellsDecide(h: Store, h': Store, t: Tree, parent: int, a: nat)
    requires h'.cells == h.cells && h'.nodes == h.nodes && TreeAt(h, t, parent) && Firsted(h, t, a)
    ensures TreeAt(h', t, parent) && Firsted(h', t, a)
  {
    if t.Node? {
      CellsDecide(h, h', t.left, t.id, a);
      CellsDecide(h, h', t.right, t.id, a + Count(t.left));
    }
  }

  lemma {:induction false} CellsDecideNext(h: Store, h': Store, t: Tree, nx: int)
    requires h'.cells == h.cells && Nexted(h, t, nx)
    ensures Nexted(h', t, nx)
    decreases t
  {
    if t.Node? {
      match t.tok
      case DupAsterisk => CellsDecideNext(h, h', t.left, t.id);
      case Concat => CellsDecideNext(h, h', t.left, FirstId(t.right)); CellsDecideNext(h, h', t.right, nx);
      case _ => CellsDecideNext(h, h', t.left, nx); CellsDecideNext(h, h', t.right, nx);
    }
  }

  lemma LinkFrameKeeps(h: Store, h': Store, t: Tree, parent: int, a: nat, nx: int, lo: int, hi: int)
    requires LinkFrame(h, h', lo, hi)
    ensures TreeAt(h, t, parent) && Firsted(h, t, a) && Nexted(h, t, nx) ==>
      TreeAt(h', t, parent) && Firsted(h', t, a) && Nexted(h', t, nx)
  {
    if TreeAt(h, t, parent) && Firsted(h, t, a) && Nexted(h, t, nx) {
      CellsDecide(h, h', t, parent, a);
      CellsDecideNext(h, h', t, nx);
    }
  }

  lemma LinkFrameFacts(h: Store, h': Store, lo: int, hi: int, p: int)
    requires LinkFrame(h, h', lo, hi)
    ensures NodeIdxAt(h', p) == NodeIdxAt(h, p)
    ensures h'.cells == h.cells && h'.nodes == h.nodes && (Parallel(h) ==> Parallel(h'))
  {
  }

  lemma LinkFrameTrans(h0: Store, h1: Store, h2: Store, lo1: int, hi1: int, lo2: int, hi2: int, lo: int, hi: int)
    requires lo <= lo1 && lo <= lo2 && hi1 <= hi && hi2 <= hi
    ensures LinkFrame(h0, h1, lo1, hi1) && LinkFrame(h1, h2, lo2, hi2) ==> LinkFrame(h0, h2, lo, hi)
  {
  }

  /** A visit that leaves the tree as it is, one level down. */
  lemma LinkVisit(h: Store, t: Tree)
    requires t.Node?
    ensures var x := PreVisit(LinkNfaNodes, Unchanged, LinkNfaNodes(h, t.id), t.left);
      var y := PreVisit(LinkNfaNodes, Unchanged, x.0, t.right);
      x.1 == t.left && y.1 == t.right ==> PreVisit(LinkNfaNodes, Unchanged, h, t) == (y.0, t)
  {
    hide LinkNfaNodes;
  }

  /** link_nfa_nodes in preorder builds the automaton of the tree. */
  lemma {:induction false} LinkPass(h: Store, t: Tree, parent: int, a: nat, nx: int)
    requires TreeAt(h, t, parent) && WellFormed(t) && Firsted(h, t, a) && Nexted(h, t, nx)
    requires Parallel(h) && a + Count(t) <= |h.nodes|
    ensures var x := PreVisit(LinkNfaNodes, Unchanged, h, t);
      && x.1 == t && Linked(Automaton(x.0), t, a, NodeIdxAt(h, nx)) && LinkFrame(h, x.0, a, a + Count(t))
    decreases t
  {
    hide LinkNfaNodes, Firsted, TreeAt, Nexted, LinkedHere, Linked, LinkFrame, Parallel, NodeIdxAt,
      Start, Idx, AfterLeft, WellFormed, Count, PreVisit;
    if t.Null? {
      LinkNull(h, t, a, NodeIdxAt(h, nx));
    } else {
      var nxi, left := NodeIdxAt(h, nx), NodeIdxAt(h, AfterLeft(t, nx));
      var mid, hi := a + Count(t.left), a + Count(t.left) + Count(t.right);
      LinkFirst(h, t, parent, a, nx);
      var h1 := LinkNfaNodes(h, t.id);
      LinkPass(h1, t.left, t.id, a, AfterLeft(t, nx));
      var x := PreVisit(LinkNfaNodes, Unchanged, h1, t.left);
      LinkFrameFacts(h1, x.0, a, mid, nx);
      LinkFrameKeeps(h1, x.0, t.right, t.id, mid, nx, a, mid);
      LinkPass(x.0, t.right, t.id, mid, nx);
      var y := PreVisit(LinkNfaNodes, Unchanged, x.0, t.right);
      LinkVisit(h, t);
      AfterLeftIdx(h, t, a, nx);
      LinkLast(h, h1, x.0, y.0, t, a, nxi, left);
    }
  }

  /** The three steps together. */
  lemma LinkLast(h: Store, h1: Store, h2: Store, h3: Store, t: Tree, a: nat, nxi: int, left: int)
    requires t.Node? && WellFormed(t)
    requires left == if t.tok.DupAsterisk? then Idx(t, a) else if t.tok.Concat? then Start(t.right, a + Count(t.left), nxi) else nxi
    ensures var mid := a + Count(t.left); var hi := mid + Count(t.right);
      (&& LinkFrame(h, h1, hi, a + Count(t)) && LinkFrame(h1, h2, a, mid) && LinkFrame(h2, h3, mid, hi)
       && LinkedHere(Automaton(h1), t, a, nxi)
       && Linked(Automaton(h2), t.left, a, left) && Linked(Automaton(h3), t.right, mid, nxi)) ==>
      Linked(Automaton(h3), t, a, nxi) && LinkFrame(h, h3, a, a + Count(t))
  {
    hide LinkFrame, LinkedHere, Linked, Idx, Start;
    var mid, hi := a + Count(t.left), a + Count(t.left) + Count(t.right);
    assert WellFormed(t.left) && Count(t) >= Count(t.left) + Count(t.right);
    if LinkFrame(h, h1, hi, a + Count(t)) && LinkFrame(h1, h2, a, mid) && LinkFrame(h2, h3, mid, hi)
       && Linked(Automaton(h2), t.left, a, left) {
      LinkedFrame(h2, h3, t.left, a, left, mid, hi);
      LinkFrameTrans(h1, h2, h3, a, mid, mid, hi, a, hi);
      LinkedJoin(h1, h3, t, a, nxi, left);
      LinkFrameTrans(h, h1, h3, hi, a + Count(t), a, hi, a, a + Count(t));
    }
  }

  lemma LinkNull(h: Store, t: Tree, a: nat, nxi: int)
    requires t.Null?
    ensures Linked(Automaton(h), t, a, nxi) && LinkFrame(h, h, a, a + Count(t))
    ensures PreVisit(LinkNfaNodes, Unchanged, h, t) == (h, t)
  {
  }

  /** The call on the node itself, and what it leaves for the children. */
  lemma LinkFirst(h: Store, t: Tree, parent: int, a: nat, nx: int)
    requires t.Node? && TreeAt(h, t, parent) && WellFormed(t) && Firsted(h, t, a) && Nexted(h, t, nx)
    requires Parallel(h) && a + Count(t) <= |h.nodes|
    ensures var h1 := LinkNfaNodes(h, t.id); var mid := a + Count(t.left); var hi := mid + Count(t.right);
      && LinkFrame(h, h1, hi, a + Count(t)) && LinkedHere(Automaton(h1), t, a, NodeIdxAt(h, nx))
      && mid + Count(t.right) == hi <= a + Count(t) <= |h1.nodes| && WellFormed(t.left) && WellFormed(t.right)
      && Parallel(h1) && |h1.nodes| == |h.nodes| && NodeIdxAt(h1, nx) == NodeIdxAt(h, nx)
      && NodeIdxAt(h1, AfterLeft(t, nx)) == NodeIdxAt(h, AfterLeft(t, nx))
      && TreeAt(h1, t.left, t.id) && Firsted(h1, t.left, a) && Nexted(h1, t.left, AfterLeft(t, nx))
      && TreeAt(h1, t.right, t.id) && Firsted(h1, t.right, mid) && Nexted(h1, t.right, nx)
  {
    hide LinkNfaNodes, Firsted, TreeAt, Nexted, LinkedHere, LinkFrame, Parallel;
    var mid, hi := a + Count(t.left), a + Count(t.left) + Count(t.right);
    LinkCall(h, t, parent, a, nx);
    TreeParts(h, t, parent);
    FirstedParts(h, t, a);
    NextedParts(h, t, nx);
    var h1 := LinkNfaNodes(h, t.id);
    LinkFrameFacts(h, h1, hi, a + Count(t), nx);
    LinkFrameKeeps(h, h1, t.left, t.id, a, AfterLeft(t, nx), hi, a + Count(t));
    LinkFrameKeeps(h, h1, t.right, t.id, mid, nx, hi, a + Count(t));
  }

  lemma AfterLeftIdx(h: Store, t: Tree, a: nat, nx: int)
    requires t.Node? && WellFormed(t) && Firsted(h, t, a)
    ensures NodeIdxAt(h, AfterLeft(t, nx)) ==
      if t.tok.DupAsterisk? then Idx(t, a)
      else if t.tok.Concat? then Start(t.right, a + Count(t.left), NodeIdxAt(h, nx))
      else NodeIdxAt(h, nx)
  {
    if t.tok.DupAsterisk? { FirstIdx(h, t, a); }
    if t.tok.Concat? { FirstIdx(h, t.right, a + Count(t.left)); }
  }

  lemma TreeParts(h: Store, t: Tree, parent: int)
    requires t.Node? && TreeAt(h, t, parent)
    ensures TreeAt(h, t.left, t.id) && TreeAt(h, t.right, t.id)
  {
  }

  /** The node's own edges and its linked children make the node linked. */
  lemma LinkedJoin(h1: Store, h2: Store, t: Tree, a: nat, nxi: int, left: int)
    requires t.Node? && WellFormed(t) && LinkFrame(h1, h2, a, a + Count(t.left) + Count(t.right))
    requires left == if t.tok.DupAsterisk? then Idx(t, a) else if t.tok.Concat? then Start(t.right, a + Count(t.left), nxi) else nxi
    ensures
      (&& LinkedHere(Automaton(h1), t, a, nxi) && Linked(Automaton(h2), t.left, a, left)
       && Linked(Automaton(h2), t.right, a + Count(t.left), nxi)) ==>
      Linked(Automaton(h2), t, a, nxi)
  {
    IdxRange(t, a);
  }
}
