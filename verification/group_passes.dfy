/** The two passes over groups: optimize_subexps and lower_subexps. */
module GroupPasses {
  import opened RegexTree
  import opened TreeStore

  /** The width of bitset_word_t, which is unsigned long. */
  type WordBits = w: nat | w >= 32 witness 64

  const BITSET_WORD_BITS: WordBits

  /** Change the left or right pointer of a cell and the child's parent pointer. */
  function SetLeft(h: Store, p: int, child: int): (h': Store)
    requires IsSlot(h, p)
    ensures |h'.cells| == |h.cells|
  {
    var cells := h.cells[p := h.cells[p].(left := child)];
    h.(cells := if 0 <= child < |cells| then cells[child := cells[child].(parent := p)] else cells)
  }

  function SetRight(h: Store, p: int, child: int): (h': Store)
    requires IsSlot(h, p)
    ensures |h'.cells| == |h.cells|
  {
    var cells := h.cells[p := h.cells[p].(right := child)];
    h.(cells := if 0 <= child < |cells| then cells[child := cells[child].(parent := p)] else cells)
  }

  // ----- optimize_subexps -----

  /** A group directly inside a group is stripped, and its number mapped to the outer
      group's; a back-reference gets the number its group is mapped to. */
  function OptimizeSubexps(h: Store, p: int): Store {
    if !IsSlot(h, p) then h
    else
      var cell := h.cells[p];
      if cell.tok.BackRef? then
        if cell.tok.idx < |h.subexpMap| then
          var idx := h.subexpMap[cell.tok.idx];
          h.(cells := h.cells[p := cell.(tok := BackRef(idx))], usedBkref := h.usedBkref + {idx})
        else h
      else if cell.tok.Subexp? && IsSlot(h, cell.left) && h.cells[cell.left].tok.Subexp? then
        var other := h.cells[cell.left].tok.idx;
        var h1 := SetLeft(h, p, h.cells[cell.left].left);
        h1.(subexpMap := if other < |h.subexpMap| && cell.tok.idx < |h.subexpMap|
                         then h.subexpMap[other := h.subexpMap[cell.tok.idx]] else h.subexpMap,
            usedBkref := if other < BITSET_WORD_BITS then h.usedBkref - {other} else h.usedBkref)
      else h
  }

  function OptimizeTree(h: Store, t: Tree): Tree {
    if t.Null? then t
    else if t.tok.BackRef? then
      if t.tok.idx < |h.subexpMap| then t.(tok := BackRef(h.subexpMap[t.tok.idx])) else t
    else if t.tok.Subexp? && t.left.Node? && t.left.tok.Subexp? then t.(left := t.left.left)
    else t
  }

  /** Hanging another tree below a node keeps the links in order. */
  lemma SetLeftAt(h: Store, id: nat, tok: Token, parent: int, u: Tree, uParent: int, r: Tree)
    requires IsSlot(h, id) && h.cells[id].tok == tok && h.cells[id].parent == parent && h.cells[id].right == Ptr(r)
    requires Distinct(r) && TreeAt(h, r, id) && Distinct(u) && TreeAt(h, u, uParent)
    requires id !in Ids(u) && id !in Ids(r) && Ids(u) !! Ids(r)
    ensures var h' := SetLeft(h, id, Ptr(u)); var t' := Node(id, tok, u, r);
      && TreeAt(h', t', parent) && Distinct(t')
      && forall p | 0 <= p < |h.cells| && p != id && p != Ptr(u) :: h'.cells[p] == h.cells[p]
  {
    var h' := SetLeft(h, id, Ptr(u));
    TreeAtSlots(h, u, uParent);
    TreeAtSlots(h, r, id);
    assert u.Node? ==> u.id in Ids(u);
    TreeAtFrame(h, h', r, id);
    if u.Node? {
      Reparent(h, h', u, uParent, id);
    }
  }

  lemma SetRightAt(h: Store, id: nat, tok: Token, parent: int, l: Tree, u: Tree, uParent: int)
    requires IsSlot(h, id) && h.cells[id].tok == tok && h.cells[id].parent == parent && h.cells[id].left == Ptr(l)
    requires Distinct(l) && TreeAt(h, l, id) && Distinct(u) && TreeAt(h, u, uParent)
    requires id !in Ids(u) && id !in Ids(l) && Ids(l) !! Ids(u)
    ensures var h' := SetRight(h, id, Ptr(u)); var t' := Node(id, tok, l, u);
      && TreeAt(h', t', parent) && Distinct(t')
      && forall p | 0 <= p < |h.cells| && p != id && p != Ptr(u) :: h'.cells[p] == h.cells[p]
  {
    var h' := SetRight(h, id, Ptr(u));
    TreeAtSlots(h, u, uParent);
    TreeAtSlots(h, l, id);
    assert u.Node? ==> u.id in Ids(u);
    TreeAtFrame(h, h', l, id);
    if u.Node? {
      Reparent(h, h', u, uParent, id);
    }
  }

  /** The nested case of the pass. */
  lemma StripNested(h: Store, t: Tree, parent: int)
    requires t.Node? && Distinct(t) && TreeAt(h, t, parent)
    requires t.tok.Subexp? && t.left.Node? && t.left.tok.Subexp?
    ensures var h' := OptimizeSubexps(h, t.id); var t' := t.(left := t.left.left);
      && OptimizeTree(h, t) == t' && TreeAt(h', t', parent) && Distinct(t') && |h'.cells| == |h.cells|
      && Ids(t') <= Ids(t) && Size(t') <= Size(t)
      && forall p | 0 <= p < |h.cells| && p !in Ids(t) :: h'.cells[p] == h.cells[p]
  {
    var u := t.left.left;
    TreeAtSlots(h, t, parent);
    assert t.left.id in Ids(t.left);
    assert h.cells[t.left.id].left == Ptr(u) && h.cells[t.left.id].tok.Subexp?;
    SetLeftAt(h, t.id, t.tok, parent, u, t.left.id, t.right);
    var h1, h', t' := SetLeft(h, t.id, Ptr(u)), OptimizeSubexps(h, t.id), t.(left := u);
    assert h'.cells == h1.cells;
    TreeAtSlots(h1, t', parent);
    TreeAtFrame(h1, h', t', parent);
    assert u.Node? ==> u.id in Ids(t);
  }

  lemma RenumberBackRef(h: Store, t: Tree, parent: int)
    requires t.Node? && Distinct(t) && TreeAt(h, t, parent) && t.tok.BackRef?
    ensures var h' := OptimizeSubexps(h, t.id); var t' := OptimizeTree(h, t);
      && TreeAt(h', t', parent) && Distinct(t') && |h'.cells| == |h.cells|
      && t'.Node? && t'.id == t.id && t'.left == t.left && t'.right == t.right
      && forall p | 0 <= p < |h.cells| && p != t.id :: h'.cells[p] == h.cells[p]
  {
    TreeAtSlots(h, t.left, t.id);
    TreeAtSlots(h, t.right, t.id);
    TreeAtFrame(h, OptimizeSubexps(h, t.id), t.left, t.id);
    TreeAtFrame(h, OptimizeSubexps(h, t.id), t.right, t.id);
  }

  lemma OptimizeCall(h: Store, t: Tree, parent: int)
    requires t.Node? && Distinct(t) && TreeAt(h, t, parent)
    ensures LocalCall(OptimizeSubexps, OptimizeTree, h, t, parent)
    ensures Size(OptimizeTree(h, t)) <= Size(t) && Ids(OptimizeTree(h, t)) <= Ids(t)
  {
    assert t.id in Ids(t);
    if t.tok.BackRef? {
      RenumberBackRef(h, t, parent);
    } else if t.tok.Subexp? && t.left.Node? && t.left.tok.Subexp? {
      StripNested(h, t, parent);
    } else if t.left.Node? {
      assert h.cells[t.left.id].tok == t.left.tok;
    }
  }

  lemma OptimizeLocal()
    ensures Local(OptimizeSubexps, OptimizeTree) && Shrinking(OptimizeTree)
  {
    forall h: Store, t: Tree, parent: int | t.Node? && Distinct(t) && TreeAt(h, t, parent)
      ensures LocalCall(OptimizeSubexps, OptimizeTree, h, t, parent)
    {
      OptimizeCall(h, t, parent);
    }
  }

  /** The matcher sees a group and the group just inside it as capturing the same text. */
  ghost predicate SameCapture(m: Matcher, a: nat, b: nat) {
    forall i: nat, j: nat :: m(BackRef(a), i, j) == m(BackRef(b), i, j)
  }

  ghost predicate AgreesOnNested(m: Matcher, t: Tree) {
    t.Node? ==>
      && (t.tok.Subexp? && t.left.Node? && t.left.tok.Subexp? ==> SameCapture(m, t.tok.idx, t.left.tok.idx))
      && AgreesOnNested(m, t.left) && AgreesOnNested(m, t.right)
  }

  lemma {:induction false} NoneAgrees(m: Matcher, t: Tree)
    requires forall tok: Token, i: nat, j: nat :: !m(tok, i, j)
    ensures AgreesOnNested(m, t)
  {
    if t.Node? { NoneAgrees(m, t.left); NoneAgrees(m, t.right); }
  }

  ghost predicate MapAgrees(m: Matcher, map_: seq<nat>) {
    forall k | 0 <= k < |map_| :: SameCapture(m, k, map_[k])
  }

  /** Trees that match the same spans, whatever else they differ in. */
  ghost predicate SameSpans(m: Matcher, t: Tree, u: Tree) {
    forall i: nat, j: nat :: Matches(m, t, i, j) <==> Matches(m, u, i, j)
  }

  /** Equal tokens over children that match the same spans. */
  lemma {:induction false} Congruence(m: Matcher, t: Tree, u: Tree, i: nat, j: nat)
    requires t.Node? && u.Node? && t.tok == u.tok
    requires SameSpans(m, t.left, u.left) && SameSpans(m, t.right, u.right)
    ensures Matches(m, t, i, j) <==> Matches(m, u, i, j)
    decreases j - i
  {
    if t.tok.DupAsterisk? && i <= j {
      forall k: nat | i < k <= j ensures Matches(m, t, k, j) <==> Matches(m, u, k, j) {
        Congruence(m, t, u, k, j);
      }
    }
  }

  lemma CongruenceAll(m: Matcher, t: Tree, u: Tree)
    requires t.Node? && u.Node? && t.tok == u.tok
    requires SameSpans(m, t.left, u.left) && SameSpans(m, t.right, u.right)
    ensures SameSpans(m, t, u)
  {
    forall i: nat, j: nat ensures Matches(m, t, i, j) <==> Matches(m, u, i, j) { Congruence(m, t, u, i, j); }
  }

  /** One call: the spans stay, the map stays in agreement, and the tree stays well formed. */
  lemma OptimizeStep(m: Matcher, h: Store, t: Tree, parent: int)
    requires t.Node? && Distinct(t) && TreeAt(h, t, parent) && WellFormed(t)
    requires AgreesOnNested(m, t) && MapAgrees(m, h.subexpMap)
    ensures var t1 := OptimizeTree(h, t); var h1 := OptimizeSubexps(h, t.id);
      && SameSpans(m, t, t1) && WellFormed(t1) && AgreesOnNested(m, t1.left) && AgreesOnNested(m, t1.right)
      && MapAgrees(m, h1.subexpMap) && |h1.subexpMap| == |h.subexpMap|
      && (t1.tok.Subexp? <==> t.tok.Subexp?)
  {
    var t1, h1 := OptimizeTree(h, t), OptimizeSubexps(h, t.id);
    if t.tok.Subexp? && t.left.Node? && t.left.tok.Subexp? {
      var other := t.left.tok.idx;
      assert h.cells[t.left.id].tok == t.left.tok;
      forall i: nat, j: nat ensures Matches(m, t, i, j) <==> Matches(m, t1, i, j) {
        assert Matches(m, t, i, j) <==> i <= j && Matches(m, t.left, i, j);
      }
      forall k | 0 <= k < |h1.subexpMap| ensures SameCapture(m, k, h1.subexpMap[k]) {
        assert SameCapture(m, k, h.subexpMap[k]);
        if k == other && t.tok.idx < |h.subexpMap| {
          assert SameCapture(m, t.tok.idx, h.subexpMap[t.tok.idx]);
        }
      }
    } else if t.tok.BackRef? && t.tok.idx < |h.subexpMap| {
      assert SameCapture(m, t.tok.idx, h.subexpMap[t.tok.idx]);
    }
  }

  /** optimize_subexps over the whole tree keeps what it matches, for every matcher to
      which directly nested groups capture the same text. */
  lemma {:induction false} OptimizePreserves(m: Matcher, h: Store, t: Tree, parent: int)
    requires Distinct(t) && TreeAt(h, t, parent) && WellFormed(t)
    requires AgreesOnNested(m, t) && MapAgrees(m, h.subexpMap)
    ensures var x := PreVisit(OptimizeSubexps, OptimizeTree, h, t);
      && SameSpans(m, t, x.1) && WellFormed(x.1) && MapAgrees(m, x.0.subexpMap)
      && (t.Node? <==> x.1.Node?)
    decreases Size(t)
  {
    if t.Node? {
      OptimizeStep(m, h, t, parent);
      OptimizeCall(h, t, parent);
      var t1, h1 := OptimizeTree(h, t), OptimizeSubexps(h, t.id);
      OptimizePreserves(m, h1, t1.left, t1.id);
      var a := PreVisit(OptimizeSubexps, OptimizeTree, h1, t1.left);
      OptimizeKeepsRest(h1, t1.left, t1.id, t1.right, t1.id);
      OptimizePreserves(m, a.0, t1.right, t1.id);
      var b := PreVisit(OptimizeSubexps, OptimizeTree, a.0, t1.right);
      CongruenceAll(m, t1, Node(t1.id, t1.tok, a.1, b.1));
    }
  }

  /** A visit of one subtree leaves a disjoint one alone. */
  lemma {:induction false} OptimizeKeepsRest(h: Store, t: Tree, parent: int, u: Tree, uParent: int)
    requires Distinct(t) && TreeAt(h, t, parent) && TreeAt(h, u, uParent) && Ids(t) !! Ids(u)
    ensures TreeAt(PreVisit(OptimizeSubexps, OptimizeTree, h, t).0, u, uParent)
    decreases Size(t)
  {
    if t.Node? {
      OptimizeCall(h, t, parent);
      var t1, h1 := OptimizeTree(h, t), OptimizeSubexps(h, t.id);
      TreeAtSlots(h, u, uParent);
      TreeAtFrame(h, h1, u, uParent);
      assert Ids(t1) <= Ids(t);
      OptimizeKeepsRest(h1, t1.left, t1.id, u, uParent);
      OptimizeKeepsRest(h1, t1.left, t1.id, t1.right, t1.id);
      OptimizeKeepsRest(PreVisit(OptimizeSubexps, OptimizeTree, h1, t1.left).0, t1.right, t1.id, u, uParent);
    }
  }

  // ----- What subexp_map says afterwards -----

  ghost function Groups(t: Tree): set<nat> {
    if t.Null? then {}
    else (if t.tok.Subexp? then {t.tok.idx} else {}) + Groups(t.left) + Groups(t.right)
  }

  ghost predicate GroupsBelow(t: Tree, n: nat) { forall k | k in Groups(t) :: k < n }

  /** A group is mapped to itself or to a group of `kept`; those of `done` all go to `kept`. */
  ghost predicate MapInto(map_: seq<nat>, done: set<nat>, kept: set<nat>) {
    && (forall k | 0 <= k < |map_| :: map_[k] == k || map_[k] in kept)
    && (forall k | k in done && k < |map_| :: map_[k] in kept)
  }

  /** The groups one call deals with: the node's own and the one it strips. */
  ghost function Own(t: Tree): set<nat> { if t.Node? && t.tok.Subexp? then {t.tok.idx} else {} }

  ghost function Stripped(t: Tree): set<nat> {
    if t.Node? && t.tok.Subexp? then Own(t.left) else {}
  }

  lemma OptimizeMapCall(h: Store, t: Tree, parent: int, done: set<nat>, kept: set<nat>)
    requires t.Node? && TreeAt(h, t, parent) && WellFormed(t) && GroupsBelow(t, |h.subexpMap|)
    requires MapInto(h.subexpMap, done, kept)
    ensures var t1 := OptimizeTree(h, t); var h1 := OptimizeSubexps(h, t.id);
      && |h1.subexpMap| == |h.subexpMap| && t1.Node? && Own(t1) == Own(t)
      && MapInto(h1.subexpMap, done + Own(t) + Stripped(t), kept + Own(t))
      && Groups(t) == Own(t) + Stripped(t) + Groups(t1.left) + Groups(t1.right)
      && WellFormed(t1.left) && WellFormed(t1.right)
      && GroupsBelow(t1.left, |h.subexpMap|) && GroupsBelow(t1.right, |h.subexpMap|)
  {
    OptimizeGroups(h, t);
    hide Groups, WellFormed;
    if t.left.Node? { assert h.cells[t.left.id].tok == t.left.tok; }
  }

  /** What one call does to the groups of the tree. */
  lemma OptimizeGroups(h: Store, t: Tree)
    requires t.Node? && WellFormed(t)
    ensures var t1 := OptimizeTree(h, t);
      && t1.Node? && Own(t1) == Own(t) && Groups(t) == Own(t) + Stripped(t) + Groups(t1.left) + Groups(t1.right)
      && WellFormed(t1.left) && WellFormed(t1.right)
    ensures Own(t) <= Groups(t) && Stripped(t) <= Groups(t)
  {
  }

  lemma {:induction false} OptimizeMapStep(h: Store, t: Tree, parent: int, done: set<nat>, kept: set<nat>)
    requires Distinct(t) && TreeAt(h, t, parent) && WellFormed(t) && GroupsBelow(t, |h.subexpMap|)
    requires MapInto(h.subexpMap, done, kept)
    ensures var x := PreVisit(OptimizeSubexps, OptimizeTree, h, t);
      && |x.0.subexpMap| == |h.subexpMap|
      && MapInto(x.0.subexpMap, done + Groups(t), kept + Groups(x.1))
    decreases Size(t)
  {
    hide TreeAt, Distinct, WellFormed, OptimizeSubexps, OptimizeTree, LocalCall, SameLinks, MapInto, GroupsBelow, Groups, Own, Stripped;
    GroupsOf(t);
    if t.Null? {
      assert done + Groups(t) == done && kept + Groups(t) == kept;
    } else {
      OptimizeCallParts(h, t, parent);
      OptimizeMapCall(h, t, parent, done, kept);
      var t1, h1 := OptimizeTree(h, t), OptimizeSubexps(h, t.id);
      var done1, kept1 := done + Own(t) + Stripped(t), kept + Own(t);
      OptimizeMapStep(h1, t1.left, t1.id, done1, kept1);
      var a := PreVisit(OptimizeSubexps, OptimizeTree, h1, t1.left);
      OptimizeKeepsRest(h1, t1.left, t1.id, t1.right, t1.id);
      OptimizeMapStep(a.0, t1.right, t1.id, done1 + Groups(t1.left), kept1 + Groups(a.1));
      var b := PreVisit(OptimizeSubexps, OptimizeTree, a.0, t1.right);
      var u := Node(t1.id, t1.tok, a.1, b.1);
      assert PreVisit(OptimizeSubexps, OptimizeTree, h, t) == (b.0, u);
      GroupsOf(u);
      GroupsOf(t1);
      assert done1 + Groups(t1.left) + Groups(t1.right) == done + Groups(t);
      assert kept1 + Groups(a.1) + Groups(b.1) == kept + Groups(u);
    }
  }

  lemma GroupsOf(t: Tree)
    ensures Groups(t) == if t.Null? then {} else Own(t) + Groups(t.left) + Groups(t.right)
    ensures t.Node? ==> Own(t) == if t.tok.Subexp? then {t.tok.idx} else {}
  {
  }

  /** The parts of a local call that a recursion over the visit needs. */
  lemma OptimizeCallParts(h: Store, t: Tree, parent: int)
    requires t.Node? && Distinct(t) && TreeAt(h, t, parent)
    ensures var t1 := OptimizeTree(h, t); var h1 := OptimizeSubexps(h, t.id);
      && t1.Node? && t1.id == t.id && Size(t1) <= Size(t) && TreeAt(h1, t1.left, t1.id) && TreeAt(h1, t1.right, t1.id)
      && Distinct(t1.left) && Distinct(t1.right) && Ids(t1.left) !! Ids(t1.right)
  {
    OptimizeCall(h, t, parent);
  }

  /** A set of groups that has with a group also the one directly below it, and the other
      way round: groups that are each other's whole body stay together. */
  ghost predicate ClosedUnderNesting(t: Tree, c: iset<nat>) {
    t.Node? ==>
      && (t.tok.Subexp? && t.left.Node? && t.left.tok.Subexp? ==> (t.tok.idx in c <==> t.left.tok.idx in c))
      && ClosedUnderNesting(t.left, c) && ClosedUnderNesting(t.right, c)
  }

  ghost predicate Identity(map_: seq<nat>) { forall i | 0 <= i < |map_| :: map_[i] == i }

  /** A group is mapped along direct nesting only. */
  lemma MapsAlongNesting(h: Store, t: Tree, parent: int, k: nat, c: iset<nat>)
    requires Distinct(t) && TreeAt(h, t, parent) && WellFormed(t) && Identity(h.subexpMap) && ClosedUnderNesting(t, c)
    ensures var map_ := PreVisit(OptimizeSubexps, OptimizeTree, h, t).0.subexpMap;
      k < |map_| ==> (k in c <==> map_[k] in c)
  {
    var m: Matcher := (tok: Token, i, j) => tok.BackRef? && tok.idx in c;
    NestingAgrees(m, t, c);
    OptimizePreserves(m, h, t, parent);
    var map_ := PreVisit(OptimizeSubexps, OptimizeTree, h, t).0.subexpMap;
    if k < |map_| {
      assert SameCapture(m, k, map_[k]);
      assert m(BackRef(k), 0, 0) == m(BackRef(map_[k]), 0, 0);
    }
  }

  lemma {:induction false} NestingAgrees(m: Matcher, t: Tree, c: iset<nat>)
    requires ClosedUnderNesting(t, c) && forall k: nat, i: nat, j: nat :: m(BackRef(k), i, j) <==> k in c
    ensures AgreesOnNested(m, t)
  {
    if t.Node? { NestingAgrees(m, t.left, c); NestingAgrees(m, t.right, c); }
  }

  /** The spans that the body of each group matches. */
  type Bodies = (nat, nat, nat) -> bool

  /** Group `k` has a body that matches the spans of `f(k, _, _)`, wherever it occurs. */
  ghost predicate HasBodies(m: Matcher, t: Tree, f: Bodies) {
    t.Node? ==>
      && (t.tok.Subexp? ==> forall i: nat, j: nat :: Matches(m, t.left, i, j) <==> f(t.tok.idx, i, j))
      && HasBodies(m, t.left, f) && HasBodies(m, t.right, f)
  }

  ghost predicate SameBody(f: Bodies, a: nat, b: nat) { forall i: nat, j: nat :: f(a, i, j) == f(b, i, j) }

  /** Groups directly nested in each other have the same body. */
  lemma {:induction false} NestedSameBody(m: Matcher, t: Tree, f: Bodies, k: nat)
    requires HasBodies(m, t, f)
    ensures ClosedUnderNesting(t, iset x: nat | SameBody(f, k, x))
  {
    if t.Node? {
      NestedSameBody(m, t.left, f, k);
      NestedSameBody(m, t.right, f, k);
      if t.tok.Subexp? && t.left.Node? && t.left.tok.Subexp? {
        var a, b := t.tok.idx, t.left.tok.idx;
        forall i: nat, j: nat ensures f(a, i, j) == f(b, i, j) {
          assert Matches(m, t.left, i, j) <==> f(a, i, j);
        }
      }
    }
  }

  /** The bodies stay what they are: a group that is kept matches what it matched before. */
  lemma {:induction false} OptimizeKeepsBodies(m: Matcher, h: Store, t: Tree, parent: int, f: Bodies)
    requires Distinct(t) && TreeAt(h, t, parent) && WellFormed(t)
    requires AgreesOnNested(m, t) && MapAgrees(m, h.subexpMap) && HasBodies(m, t, f)
    ensures HasBodies(m, PreVisit(OptimizeSubexps, OptimizeTree, h, t).1, f)
    decreases Size(t)
  {
    hide TreeAt, Distinct, WellFormed, OptimizeSubexps, LocalCall, SameLinks, MapAgrees, AgreesOnNested, SameCapture, Matches;
    if t.Node? {
      OptimizeCallParts(h, t, parent);
      OptimizeStep(m, h, t, parent);
      BodiesStep(m, h, t, f);
      WellFormedParts(OptimizeTree(h, t));
      var t1, h1 := OptimizeTree(h, t), OptimizeSubexps(h, t.id);
      OptimizePreserves(m, h1, t1.left, t1.id);
      OptimizeKeepsBodies(m, h1, t1.left, t1.id, f);
      var a := PreVisit(OptimizeSubexps, OptimizeTree, h1, t1.left);
      OptimizeKeepsRest(h1, t1.left, t1.id, t1.right, t1.id);
      OptimizeKeepsBodies(m, a.0, t1.right, t1.id, f);
    }
  }

  lemma WellFormedParts(t: Tree)
    ensures WellFormed(t) && t.Node? ==> WellFormed(t.left) && WellFormed(t.right)
  {
  }

  lemma BodiesStep(m: Matcher, h: Store, t: Tree, f: Bodies)
    requires t.Node? && HasBodies(m, t, f)
    ensures HasBodies(m, OptimizeTree(h, t), f)
  {
    if t.tok.Subexp? && t.left.Node? && t.left.tok.Subexp? {
      forall i: nat, j: nat ensures Matches(m, t.left.left, i, j) <==> f(t.tok.idx, i, j) {
        assert Matches(m, t.left, i, j) <==> f(t.tok.idx, i, j);
      }
    }
  }

  /** Starting from the identity, every group of the tree ends up mapped to a group that
      the pass kept, and to no other than one it was nested with directly, over any number
      of steps. So that group has the same body, before and after the pass. */
  lemma OptimizeMapsToKept(h: Store, t: Tree, parent: int, k: nat)
    requires Distinct(t) && TreeAt(h, t, parent) && WellFormed(t) && GroupsBelow(t, |h.subexpMap|)
    requires Identity(h.subexpMap) && k in Groups(t)
    ensures var x := PreVisit(OptimizeSubexps, OptimizeTree, h, t); var map_ := x.0.subexpMap;
      && k < |map_| && map_[k] in Groups(x.1)
      && (forall c | ClosedUnderNesting(t, c) :: k in c <==> map_[k] in c)
      && (forall m, f | AgreesOnNested(m, t) && HasBodies(m, t, f) :: HasBodies(m, x.1, f) && SameBody(f, k, map_[k]))
  {
    OptimizeMapStep(h, t, parent, {}, {});
    var x := PreVisit(OptimizeSubexps, OptimizeTree, h, t);
    var map_ := x.0.subexpMap;
    forall c | ClosedUnderNesting(t, c) ensures k in c <==> map_[k] in c { MapsAlongNesting(h, t, parent, k, c); }
    forall m, f | AgreesOnNested(m, t) && HasBodies(m, t, f) ensures HasBodies(m, x.1, f) && SameBody(f, k, map_[k]) {
      OptimizeKeepsBodies(m, h, t, parent, f);
      NestedSameBody(m, t, f, k);
      var c := iset x: nat | SameBody(f, k, x);
      assert k in c && map_[k] in c;
    }
  }

  // ----- Back-references -----

  /** The groups that back-references name. */
  ghost function Refs(t: Tree): set<nat> {
    if t.Null? then {}
    else (if t.tok.BackRef? then {t.tok.idx} else {}) + Refs(t.left) + Refs(t.right)
  }

  lemma RefsOf(t: Tree)
    ensures t.Node? ==> Refs(t) == (if t.tok.BackRef? then {t.tok.idx} else {}) + Refs(t.left) + Refs(t.right)
  {
  }
}
