/** The arena of tree nodes and the two stack-free walks over it. */
module TreeStore {
  import opened RegexTree

  /** bin_tree_t. Pointers are arena slots, -1 is NULL. */
  datatype Cell = Cell(parent: int, left: int, right: int, first: int, next: int, tok: Token, nodeIdx: int)

  /** The parts of re_dfa_t and regex_t that the passes read and write. */
  datatype Store = Store(
    cells: seq<Cell>,
    nodes: seq<Token>, nexts: seq<int>, edests: seq<seq<int>>,
    subexpMap: seq<nat>, usedBkref: set<nat>, noSub: bool)

  predicate IsSlot(h: Store, p: int) { 0 <= p < |h.cells| }

  /** The cells of `h` hold the tree `t`, hanging off `parent`. */
  ghost predicate TreeAt(h: Store, t: Tree, parent: int) {
    t.Node? ==>
      && IsSlot(h, t.id)
      && h.cells[t.id].parent == parent
      && h.cells[t.id].tok == t.tok
      && h.cells[t.id].left == Ptr(t.left)
      && h.cells[t.id].right == Ptr(t.right)
      && TreeAt(h, t.left, t.id)
      && TreeAt(h, t.right, t.id)
  }

  /** Slot `p` has the same links and token in both stores. */
  ghost predicate SameLinks(h: Store, h': Store, p: int) {
    && IsSlot(h, p) && IsSlot(h', p)
    && h.cells[p].parent == h'.cells[p].parent
    && h.cells[p].left == h'.cells[p].left
    && h.cells[p].right == h'.cells[p].right
    && h.cells[p].tok == h'.cells[p].tok
  }

  lemma {:induction false} TreeAtFrame(h: Store, h': Store, t: Tree, parent: int)
    requires TreeAt(h, t, parent)
    requires forall p | p in Ids(t) :: SameLinks(h, h', p)
    ensures TreeAt(h', t, parent)
  {
    if t.Node? {
      assert t.id in Ids(t);
      TreeAtFrame(h, h', t.left, t.id);
      TreeAtFrame(h, h', t.right, t.id);
    }
  }

  lemma {:induction false} TreeAtSlots(h: Store, t: Tree, parent: int)
    requires TreeAt(h, t, parent)
    ensures forall p | p in Ids(t) :: IsSlot(h, p)
  {
    if t.Node? {
      TreeAtSlots(h, t.left, t.id);
      TreeAtSlots(h, t.right, t.id);
    }
  }

  // ----- What a pass may do to the node it is called on -----

  type Visitor = (Store, int) -> Store
  /** The tree that stands at the visited node afterwards. */
  type Reshape = (Store, Tree) -> Tree

  /** One call of `fn` on the root of `t`: it may rebuild that subtree, with fresh slots
      if it likes, but keeps the node itself in place and leaves the rest alone. */
  ghost predicate LocalCall(fn: Visitor, f: Reshape, h: Store, t: Tree, parent: int)
    requires t.Node?
  {
    var h', t' := fn(h, t.id), f(h, t);
    && t'.Node? && t'.id == t.id && Distinct(t') && TreeAt(h', t', parent)
    && |h.cells| <= |h'.cells|
    && (forall p | p in Ids(t') :: p in Ids(t) || |h.cells| <= p)
    && (forall p | 0 <= p < |h.cells| && p !in Ids(t) :: SameLinks(h, h', p))
  }

  ghost predicate Local(fn: Visitor, f: Reshape) {
    forall h: Store, t: Tree, parent: int {:trigger LocalCall(fn, f, h, t, parent)} ::
      t.Node? && Distinct(t) && TreeAt(h, t, parent) ==> LocalCall(fn, f, h, t, parent)
  }

  /** For a preorder visit the subtrees still to be visited must not grow. */
  ghost predicate Shrinking(f: Reshape) {
    forall h: Store, t: Tree {:trigger f(h, t)} :: t.Node? && f(h, t).Node? ==> Size(f(h, t)) <= Size(t)
  }

  // ----- The recursive visits that the loops must agree with -----

  /** Visit the node, then its left subtree as `fn` left it, then its right one. */
  ghost function PreVisit(fn: Visitor, f: Reshape, h: Store, t: Tree): (Store, Tree)
    decreases Size(t)
  {
    if t.Null? then (h, t)
    else
      var t1 := f(h, t);
      if t1.Null? || Size(t) < Size(t1) then (fn(h, t.id), t1)
      else
        var a := PreVisit(fn, f, fn(h, t.id), t1.left);
        var b := PreVisit(fn, f, a.0, t1.right);
        (b.0, Node(t1.id, t1.tok, a.1, b.1))
  }

  /** Visit both subtrees, then the node. */
  ghost function PostVisit(fn: Visitor, f: Reshape, h: Store, t: Tree): (Store, Tree)
    decreases t
  {
    if t.Null? then (h, t)
    else
      var a := PostVisit(fn, f, h, t.left);
      var b := PostVisit(fn, f, a.0, t.right);
      (fn(b.0, t.id), f(b.0, Node(t.id, t.tok, a.1, b.1)))
  }

  // ----- The way from the current node up to the root -----

  /** The parent of the current node, which is its left (`InLeft`) or right child. */
  datatype Path =
    | Top
    | InLeft(id: nat, tok: Token, right: Tree, up: Path)
    | InRight(id: nat, tok: Token, left: Tree, up: Path)

  /** The whole tree, given the subtree at the current node. */
  ghost function Plug(c: Path, t: Tree): Tree {
    match c
    case Top => t
    case InLeft(id, tok, r, up) => Plug(up, Node(id, tok, t, r))
    case InRight(id, tok, l, up) => Plug(up, Node(id, tok, l, t))
  }

  function ParentOf(c: Path, base: int := -1): int { if c.Top? then base else c.id }

  /** Right subtrees of the ancestors that are still to be visited. */
  ghost function Pending(c: Path): nat {
    match c
    case Top => 0
    case InLeft(_, _, r, up) => Size(r) + Pending(up)
    case InRight(_, _, _, up) => Pending(up)
  }

  ghost function Height(c: Path): nat { if c.Top? then 0 else 1 + Height(c.up) }

  ghost function PathIds(c: Path): set<nat> {
    match c
    case Top => {}
    case InLeft(id, _, r, up) => {id} + Ids(r) + PathIds(up)
    case InRight(id, _, l, up) => {id} + Ids(l) + PathIds(up)
  }

  /** The cells along the path hold the ancestors and their other subtrees. The parent
      pointer at the top of the path is `base`: NULL, except in a copy being made. */
  ghost predicate PathAt(h: Store, c: Path, child: int, base: int := -1) {
    c.Top? ||
    (&& IsSlot(h, c.id) && h.cells[c.id].tok == c.tok && h.cells[c.id].parent == ParentOf(c.up, base)
     && (if c.InLeft?
         then h.cells[c.id].left == child && h.cells[c.id].right == Ptr(c.right) && TreeAt(h, c.right, c.id)
         else h.cells[c.id].right == child && h.cells[c.id].left == Ptr(c.left) && TreeAt(h, c.left, c.id))
     && PathAt(h, c.up, c.id, base))
  }

  /** The path and the subtree share no slot, and neither repeats one. */
  ghost predicate PathDistinct(c: Path) {
    c.Top? ||
    (&& c.id !in PathIds(c.up)
     && (var s := if c.InLeft? then c.right else c.left;
         Distinct(s) && c.id !in Ids(s) && Ids(s) !! PathIds(c.up))
     && PathDistinct(c.up))
  }

  /** `t` hangs at the end of path `c`, and the two together are one proper tree. */
  ghost predicate Focus(h: Store, c: Path, t: Tree, base: int := -1) {
    && t.Node? && Distinct(t) && TreeAt(h, t, ParentOf(c, base))
    && PathAt(h, c, t.id, base) && PathDistinct(c) && Ids(t) !! PathIds(c)
  }

  lemma {:induction false} FocusTop(h: Store, t: Tree)
    requires t.Node? && Distinct(t) && TreeAt(h, t, -1)
    ensures Focus(h, Top, t)
  {
  }

  lemma {:induction false} PathAtFrame(h: Store, h': Store, c: Path, child: int, base: int := -1)
    requires PathAt(h, c, child, base)
    requires forall p | p in PathIds(c) :: SameLinks(h, h', p)
    ensures PathAt(h', c, child, base)
  {
    if !c.Top? {
      assert c.id in PathIds(c);
      TreeAtFrame(h, h', if c.InLeft? then c.right else c.left, c.id);
      PathAtFrame(h, h', c.up, c.id, base);
    }
  }

  lemma {:induction false} PathAtSlots(h: Store, c: Path, child: int, base: int := -1)
    requires PathAt(h, c, child, base)
    ensures forall p | p in PathIds(c) :: IsSlot(h, p)
  {
    if !c.Top? {
      TreeAtSlots(h, if c.InLeft? then c.right else c.left, c.id);
      PathAtSlots(h, c.up, c.id, base);
    }
  }

  /** A local call at the focus keeps the focus. */
  lemma FocusCall(fn: Visitor, f: Reshape, h: Store, c: Path, t: Tree)
    requires Focus(h, c, t) && Local(fn, f)
    ensures Focus(fn(h, t.id), c, f(h, t)) && f(h, t).id == t.id
  {
    assert LocalCall(fn, f, h, t, ParentOf(c));
    PathAtSlots(h, c, t.id);
    PathAtFrame(h, fn(h, t.id), c, t.id);
  }

  lemma FocusLeft(h: Store, c: Path, t: Tree, base: int := -1)
    requires Focus(h, c, t, base) && t.left.Node?
    ensures Focus(h, InLeft(t.id, t.tok, t.right, c), t.left, base)
  {
  }

  lemma FocusRight(h: Store, c: Path, t: Tree, base: int := -1)
    requires Focus(h, c, t, base) && t.right.Node?
    ensures Focus(h, InRight(t.id, t.tok, t.left, c), t.right, base)
  {
  }

  lemma FocusUp(h: Store, c: Path, t: Tree, base: int := -1)
    requires Focus(h, c, t, base) && !c.Top?
    ensures c.InLeft? ==> Focus(h, c.up, Node(c.id, c.tok, t, c.right), base)
    ensures c.InRight? ==> Focus(h, c.up, Node(c.id, c.tok, c.left, t), base)
  {
  }

  // ----- What remains of a visit once the subtree at the current node is finished -----

  ghost function PreUnwind(fn: Visitor, f: Reshape, x: (Store, Tree), c: Path): (Store, Tree)
    decreases c
  {
    match c
    case Top => x
    case InLeft(id, tok, r, up) =>
      var b := PreVisit(fn, f, x.0, r);
      PreUnwind(fn, f, (b.0, Node(id, tok, x.1, b.1)), up)
    case InRight(id, tok, l, up) =>
      PreUnwind(fn, f, (x.0, Node(id, tok, l, x.1)), up)
  }

  ghost function PostUnwind(fn: Visitor, f: Reshape, x: (Store, Tree), c: Path): (Store, Tree)
    decreases c
  {
    match c
    case Top => x
    case InLeft(id, tok, r, up) =>
      var b := PostVisit(fn, f, x.0, r);
      PostUnwind(fn, f, (fn(b.0, id), f(b.0, Node(id, tok, x.1, b.1))), up)
    case InRight(id, tok, l, up) =>
      PostUnwind(fn, f, (fn(x.0, id), f(x.0, Node(id, tok, l, x.1))), up)
  }

  /** What the loops read off the focused cell. */
  lemma FocusCell(h: Store, c: Path, t: Tree, base: int := -1)
    requires Focus(h, c, t, base)
    ensures IsSlot(h, t.id)
    ensures h.cells[t.id].left == Ptr(t.left) && h.cells[t.id].right == Ptr(t.right)
    ensures h.cells[t.id].parent == ParentOf(c, base)
    ensures !c.Top? ==> IsSlot(h, c.id)
    ensures c.InLeft? ==> h.cells[c.id].right == Ptr(c.right) && Ptr(c.right) != t.id
    ensures c.InRight? ==> h.cells[c.id].right == t.id
  {
    if c.InLeft? && c.right.Node? {
      assert c.right.id in PathIds(c);
    }
  }

  // ----- New nodes -----

  /** create_token_tree: a new cell over two existing trees, which get it as parent. */
  function CreateTree(h: Store, left: int, right: int, tok: Token): (h': Store)
    ensures |h'.cells| == |h.cells| + 1
  {
    var tree := |h.cells|;
    var cells := h.cells + [Cell(-1, left, right, -1, -1, tok, -1)];
    var cells1 := if 0 <= left < tree then cells[left := cells[left].(parent := tree)] else cells;
    h.(cells := if 0 <= right < tree then cells1[right := cells1[right].(parent := tree)] else cells1)
  }

  /** Only the parent pointer of the root changed. */
  lemma Reparent(h: Store, h': Store, t: Tree, parent: int, parent': int)
    requires TreeAt(h, t, parent) && Distinct(t) && t.Node?
    requires forall p | p in Ids(t) && p != t.id :: SameLinks(h, h', p)
    requires IsSlot(h', t.id) && h'.cells[t.id] == h.cells[t.id].(parent := parent')
    ensures TreeAt(h', t, parent')
  {
    TreeAtFrame(h, h', t.left, t.id);
    TreeAtFrame(h, h', t.right, t.id);
  }

  lemma CreateTreeCells(h: Store, l: int, r: int, tok: Token)
    requires l == -1 || l != r
    ensures var h' := CreateTree(h, l, r, tok); var n := |h.cells|;
      && h'.cells[n] == Cell(-1, l, r, -1, -1, tok, -1)
      && (forall p | 0 <= p < n :: h'.cells[p] == if p == l || p == r then h.cells[p].(parent := n) else h.cells[p])
  {
  }

  lemma NewNodeAt(h: Store, h': Store, l: Tree, r: Tree, lp: int, rp: int, tok: Token)
    requires TreeAt(h, l, lp) && TreeAt(h, r, rp) && Distinct(l) && Distinct(r) && Ids(l) !! Ids(r)
    requires |h'.cells| == |h.cells| + 1
    requires h'.cells[|h.cells|] == Cell(-1, Ptr(l), Ptr(r), -1, -1, tok, -1)
    requires forall p | 0 <= p < |h.cells| ::
      h'.cells[p] == if p == Ptr(l) || p == Ptr(r) then h.cells[p].(parent := |h.cells|) else h.cells[p]
    ensures TreeAt(h', Node(|h.cells|, tok, l, r), -1) && Distinct(Node(|h.cells|, tok, l, r))
  {
    TreeAtSlots(h, l, lp);
    TreeAtSlots(h, r, rp);
    if l.Node? {
      assert l.id in Ids(l);
      assert forall p | p in Ids(l) && p != l.id :: p !in Ids(r) && p != Ptr(r) && SameLinks(h, h', p);
      Reparent(h, h', l, lp, |h.cells|);
    }
    if r.Node? {
      assert r.id in Ids(r);
      assert forall p | p in Ids(r) && p != r.id :: p !in Ids(l) && p != Ptr(l) && SameLinks(h, h', p);
      Reparent(h, h', r, rp, |h.cells|);
    }
  }

  /** The new node heads a proper tree, and only its children's parent pointers changed. */
  lemma CreateTreeAt(h: Store, l: Tree, r: Tree, lp: int, rp: int, tok: Token)
    requires TreeAt(h, l, lp) && TreeAt(h, r, rp) && Distinct(l) && Distinct(r) && Ids(l) !! Ids(r)
    ensures var h' := CreateTree(h, Ptr(l), Ptr(r), tok); var t := Node(|h.cells|, tok, l, r);
      && TreeAt(h', t, -1) && Distinct(t)
      && (forall p | 0 <= p < |h.cells| && p != Ptr(l) && p != Ptr(r) :: SameLinks(h, h', p))
  {
    assert l.Node? && r.Node? ==> l.id in Ids(l) && r.id in Ids(r);
    CreateTreeCells(h, Ptr(l), Ptr(r), tok);
    NewNodeAt(h, CreateTree(h, Ptr(l), Ptr(r), tok), l, r, lp, rp, tok);
    hide TreeAt, Distinct, CreateTree, Ids, SameLinks;
    CreateTreeKeeps(h, Ptr(l), Ptr(r), tok);
  }

  lemma CreateTreeKeeps(h: Store, l: int, r: int, tok: Token)
    requires l == -1 || l != r
    ensures forall p | 0 <= p < |h.cells| && p != l && p != r :: SameLinks(h, CreateTree(h, l, r, tok), p)
  {
    CreateTreeCells(h, l, r, tok);
    hide CreateTree;
  }

  // ----- duplicate_tree -----

  /** No ancestor has a right child that comes after the current node. */
  ghost predicate RightExhausted(c: Path) {
    c.Top? || ((c.InLeft? ==> c.right.Null?) && RightExhausted(c.up))
  }

  /** The copy's path `d` repeats the source's path `c` up to the root `t` of the source,
      with finished copies to the left and nothing yet to the right. */
  ghost predicate Mirror(c: Path, cur: Tree, d: Path, c0: Path, t: Tree)
    decreases d
  {
    match d
    case Top => c == c0 && cur == t
    case InLeft(_, tok, r, up) =>
      c.InLeft? && c.tok == tok && r.Null? && Mirror(c.up, Node(c.id, c.tok, cur, c.right), up, c0, t)
    case InRight(_, tok, l, up) =>
      c.InRight? && c.tok == tok && SameTokens(c.left, l) && Mirror(c.up, Node(c.id, c.tok, c.left, cur), up, c0, t)
  }

  ghost predicate AllFrom(s: set<nat>, n: nat) { forall p | p in s :: n <= p }

  /** `*p_new = create_token_tree (...)` with the parent set: `p_new` is the field of the
      copied parent named by `d`, or the result variable when `d` is `Top`. */
  function FillHole(h: Store, parent: int, inLeft: bool, inRight: bool, tok: Token): Store {
    var n := |h.cells|;
    var cells := CreateTree(h, -1, -1, tok).cells;
    var cells1 := cells[n := cells[n].(parent := parent)];
    h.(cells := if !(0 <= parent < n) then cells1
                else if inLeft then cells1[parent := cells1[parent].(left := n)]
                else if inRight then cells1[parent := cells1[parent].(right := n)]
                else cells1)
  }

  /** The copy has a hole where the copy of `cur` goes. */
  ghost predicate DupHole(h: Store, n0: nat, c: Path, cur: Tree, d: Path, c0: Path, t: Tree, base: int) {
    && Mirror(c, cur, d, c0, t) && PathAt(h, d, -1, base) && PathDistinct(d) && AllFrom(PathIds(d), n0)
    && n0 <= |h.cells| && base < n0
  }

  /** `copy` stands in the copy where `cur` stands in the source. */
  ghost predicate DupAt(h: Store, n0: nat, c: Path, cur: Tree, d: Path, copy: Tree, c0: Path, t: Tree, base: int) {
    && Mirror(c, cur, d, c0, t) && Focus(h, d, copy, base)
    && AllFrom(PathIds(d), n0) && AllFrom(Ids(copy), n0)
    && n0 <= |h.cells| && base < n0
  }

  lemma DupFill(h: Store, n0: nat, c: Path, cur: Tree, d: Path, c0: Path, t: Tree, base: int)
    requires DupHole(h, n0, c, cur, d, c0, t, base) && cur.Node?
    ensures var h' := FillHole(h, ParentOf(d, base), d.InLeft?, d.InRight?, cur.tok);
      && DupAt(h', n0, c, cur, d, Node(|h.cells|, cur.tok, Null, Null), c0, t, base)
      && |h'.cells| == |h.cells| + 1
      && forall p | 0 <= p < n0 :: h'.cells[p] == h.cells[p]
  {
    var h' := FillHole(h, ParentOf(d, base), d.InLeft?, d.InRight?, cur.tok);
    PathAtSlots(h, d, -1, base);
    if !d.Top? {
      assert d.id in PathIds(d);
      assert d.id !in PathIds(d.up);
      PathAtFrame(h, h', d.up, d.id, base);
      TreeAtFrame(h, h', if d.InLeft? then d.right else d.left, d.id);
    }
  }

  lemma DupDown(h: Store, n0: nat, c: Path, cur: Tree, d: Path, copy: Tree, c0: Path, t: Tree, base: int)
    requires DupAt(h, n0, c, cur, d, copy, c0, t, base) && cur.Node? && copy.tok == cur.tok && copy.right.Null?
    ensures cur.left.Node? && copy.left.Null? ==>
      DupHole(h, n0, InLeft(cur.id, cur.tok, cur.right, c), cur.left, InLeft(copy.id, copy.tok, Null, d), c0, t, base)
    ensures cur.right.Node? && SameTokens(cur.left, copy.left) ==>
      DupHole(h, n0, InRight(cur.id, cur.tok, cur.left, c), cur.right, InRight(copy.id, copy.tok, copy.left, d), c0, t, base)
  {
    assert copy.id in Ids(copy);
  }

  lemma DupUp(h: Store, n0: nat, c: Path, cur: Tree, d: Path, copy: Tree, c0: Path, t: Tree, base: int)
    requires DupAt(h, n0, c, cur, d, copy, c0, t, base) && cur.Node? && SameTokens(cur, copy) && !d.Top?
    ensures !c.Top?
    ensures c.InLeft? ==>
      DupAt(h, n0, c.up, Node(c.id, c.tok, cur, c.right), d.up, Node(d.id, d.tok, copy, Null), c0, t, base)
    ensures c.InRight? ==>
      DupAt(h, n0, c.up, Node(c.id, c.tok, c.left, cur), d.up, Node(d.id, d.tok, d.left, copy), c0, t, base)
  {
    assert d.id in PathIds(d);
    FocusUp(h, d, copy, base);
  }

  /** Copying has added cells to `h0` and changed nothing else. */
  ghost predicate Extends(h0: Store, h: Store) {
    && |h0.cells| <= |h.cells| && h == h0.(cells := h.cells)
    && forall p | 0 <= p < |h0.cells| :: h.cells[p] == h0.cells[p]
  }

  /** duplicate_tree is about to copy the node `cur` of the source. */
  ghost predicate DupTodo(h0: Store, h: Store, c: Path, cur: Tree, d: Path, c0: Path, t: Tree) {
    Extends(h0, h) && Focus(h0, c, cur) && DupHole(h, |h0.cells|, c, cur, d, c0, t, ParentOf(c0))
  }

  /** The node and its left subtree are copied, and its right one too if `right`. */
  ghost predicate DupPart(h0: Store, h: Store, c: Path, cur: Tree, d: Path, copy: Tree, c0: Path, t: Tree, right: bool) {
    && Extends(h0, h) && Focus(h0, c, cur) && DupAt(h, |h0.cells|, c, cur, d, copy, c0, t, ParentOf(c0))
    && copy.tok == cur.tok && SameTokens(cur.left, copy.left)
    && if right then SameTokens(cur.right, copy.right) else copy.right.Null?
  }

  /** The copy is complete and the climb has reached the ancestor `c.id` from `child`. */
  ghost predicate DupAbove(h0: Store, h: Store, c: Path, child: int, copy: Tree, c0: Path, t: Tree) {
    && Extends(h0, h) && !c.Top? && PathAt(h0, c, child) && RightExhausted(c) && child != -1
    && DupFinished(h0, h, copy, c0, t)
  }

  /** `copy` is a fresh tree with the tokens of `t` and the parent of `t`'s root. */
  ghost predicate DupFinished(h0: Store, h: Store, copy: Tree, c0: Path, t: Tree) {
    && copy.Node? && SameTokens(t, copy) && Distinct(copy)
    && TreeAt(h, copy, ParentOf(c0)) && AllFrom(Ids(copy), |h0.cells|)
  }

  lemma DupStart(h0: Store, c0: Path, t: Tree)
    requires Focus(h0, c0, t)
    ensures DupTodo(h0, h0, c0, t, Top, c0, t)
  {
    FocusCell(h0, c0, t);
    PathAtSlots(h0, c0, t.id);
  }

  lemma DupStepFill(h0: Store, h: Store, c: Path, cur: Tree, d: Path, c0: Path, t: Tree)
    requires DupTodo(h0, h, c, cur, d, c0, t)
    ensures cur.Node? && IsSlot(h0, cur.id) && IsSlot(h, cur.id) && h.cells[cur.id] == h0.cells[cur.id]
    ensures h0.cells[cur.id].left == Ptr(cur.left) && h0.cells[cur.id].right == Ptr(cur.right)
    ensures var h' := FillHole(h, ParentOf(d, ParentOf(c0)), d.InLeft?, d.InRight?, h.cells[cur.id].tok);
      var copy := Node(|h.cells|, cur.tok, Null, Null);
      && |h.cells| < |h'.cells| && Extends(h0, h') && h'.cells[cur.id] == h.cells[cur.id]
      && (cur.left.Node? ==> DupTodo(h0, h', InLeft(cur.id, cur.tok, cur.right, c), cur.left,
                                     InLeft(copy.id, cur.tok, Null, d), c0, t))
      && (cur.left.Null? ==> DupPart(h0, h', c, cur, d, copy, c0, t, false))
  {
    var h' := FillHole(h, ParentOf(d, ParentOf(c0)), d.InLeft?, d.InRight?, h.cells[cur.id].tok);
    var copy := Node(|h.cells|, cur.tok, Null, Null);
    FocusCell(h0, c, cur);
    DupFill(h, |h0.cells|, c, cur, d, c0, t, ParentOf(c0));
    assert Extends(h0, h');
    if cur.left.Node? {
      FocusLeft(h0, c, cur);
      DupDown(h', |h0.cells|, c, cur, d, copy, c0, t, ParentOf(c0));
    }
  }

  lemma DupStepRight(h0: Store, h: Store, c: Path, cur: Tree, d: Path, copy: Tree, c0: Path, t: Tree)
    requires DupPart(h0, h, c, cur, d, copy, c0, t, false) && cur.right.Node?
    ensures DupTodo(h0, h, InRight(cur.id, cur.tok, cur.left, c), cur.right,
                    InRight(copy.id, copy.tok, copy.left, d), c0, t)
  {
    FocusRight(h0, c, cur);
    DupDown(h, |h0.cells|, c, cur, d, copy, c0, t, ParentOf(c0));
  }

  lemma DupCells(h0: Store, h: Store, c: Path, cur: Tree, d: Path, copy: Tree, c0: Path, t: Tree, right: bool)
    requires DupPart(h0, h, c, cur, d, copy, c0, t, right)
    ensures cur.Node? && copy.Node? && copy.tok == cur.tok
    ensures IsSlot(h0, cur.id) && h.cells[cur.id] == h0.cells[cur.id]
    ensures h0.cells[cur.id].left == Ptr(cur.left) && h0.cells[cur.id].right == Ptr(cur.right)
    ensures h0.cells[cur.id].parent == ParentOf(c)
    ensures cur.left.Node? ==> Ptr(cur.right) != cur.left.id
    ensures IsSlot(h, copy.id) && h.cells[copy.id].parent == ParentOf(d, ParentOf(c0))
    ensures !c.Top? ==> IsSlot(h0, c.id) && IsSlot(h, c.id)
    ensures !d.Top? ==> IsSlot(h, d.id)
    ensures Extends(h0, h)
    ensures d.Top? ==> c == c0 && cur == t
  {
    FocusCell(h0, c, cur);
    FocusCell(h, d, copy, ParentOf(c0));
    if cur.left.Node? && cur.right.Node? {
      assert cur.left.id in Ids(cur.left) && cur.right.id in Ids(cur.right);
    }
  }

  lemma DupStepUp(h0: Store, h: Store, c: Path, cur: Tree, d: Path, copy: Tree, c0: Path, t: Tree, right: bool)
    requires DupPart(h0, h, c, cur, d, copy, c0, t, right) && (!right ==> cur.right.Null?) && RightExhausted(c0)
    ensures d.Top? && !c.Top? ==> DupAbove(h0, h, c, cur.id, copy, c0, t)
    ensures d.Top? ==> DupFinished(h0, h, copy, c0, t)
    ensures !d.Top? ==> !c.Top? && c.InLeft? == d.InLeft?
    ensures !d.Top? && c.InLeft? ==>
      DupPart(h0, h, c.up, Node(c.id, c.tok, cur, c.right), d.up, Node(d.id, d.tok, copy, Null), c0, t, false)
    ensures !d.Top? && c.InRight? ==>
      DupPart(h0, h, c.up, Node(c.id, c.tok, c.left, cur), d.up, Node(d.id, d.tok, d.left, copy), c0, t, true)
  {
    if !d.Top? {
      DupUp(h, |h0.cells|, c, cur, d, copy, c0, t, ParentOf(c0));
      FocusUp(h0, c, cur);
    }
  }

  lemma DupStepAbove(h0: Store, h: Store, c: Path, child: int, copy: Tree, c0: Path, t: Tree)
    requires DupAbove(h0, h, c, child, copy, c0, t)
    ensures !c.Top? && IsSlot(h0, c.id) && IsSlot(h, c.id) && h.cells[c.id] == h0.cells[c.id]
    ensures h.cells[c.id].parent == ParentOf(c.up)
    ensures h.cells[c.id].right == child || h.cells[c.id].right == -1
    ensures !c.up.Top? ==> DupAbove(h0, h, c.up, c.id, copy, c0, t) && IsSlot(h0, c.up.id)
    ensures DupFinished(h0, h, copy, c0, t) && Extends(h0, h) && copy.Node?
    ensures !c.up.Top? ==> IsSlot(h, c.up.id)
  {
  }

  /** Where the climb after a copied leaf stands. */
  datatype Climb =
    | Within(c: Path, cur: Tree, d: Path, copy: Tree, right: bool)  // at `cur`, inside the source tree
    | Above(c: Path, copy: Tree)                                    // at the ancestor `c.id` of the source tree

  ghost predicate ClimbAt(h0: Store, h: Store, g: Climb, node: int, dupNode: int, prev: int, dupRoot: int, c0: Path, t: Tree) {
    match g
    case Within(c, cur, d, copy, right) =>
      && DupPart(h0, h, c, cur, d, copy, c0, t, right) && cur.id == node && copy.id == dupNode
      && RootOf(d, dupNode) == dupRoot && prev == (if right then Ptr(cur.right) else Ptr(cur.left))
      && (right ==> prev != -1)
    case Above(c, copy) =>
      DupAbove(h0, h, c, prev, copy, c0, t) && copy.id == dupRoot && c.id == node == dupNode
  }

  ghost function ClimbUp(g: Climb): Climb {
    match g
    case Within(c, cur, d, copy, _) =>
      if d.Top? then Above(c, copy)
      else if c.Top? then g
      else if c.InLeft? then Within(c.up, Node(c.id, c.tok, cur, c.right), d.up, Node(d.id, d.tok, copy, Null), false)
      else if d.InLeft? then g
      else Within(c.up, Node(c.id, c.tok, c.left, cur), d.up, Node(d.id, d.tok, d.left, copy), true)
    case Above(c, copy) => if c.Top? then g else Above(c.up, copy)
  }

  /** Nodes of the source still to be copied. */
  ghost function ClimbTodo(g: Climb): nat {
    match g
    case Within(c, cur, _, _, right) => (if right || cur.Null? then 0 else Size(cur.right)) + Pending(c)
    case Above(_, _) => 0
  }

  ghost function ClimbRank(g: Climb): nat {
    if g.Within? then Height(g.c) + 1 else Height(g.c)
  }

  lemma ClimbStep(h0: Store, h: Store, g: Climb, node: int, dupNode: int, prev: int, dupRoot: int, c0: Path, t: Tree)
    requires ClimbAt(h0, h, g, node, dupNode, prev, dupRoot, c0, t) && RightExhausted(c0)
    requires IsSlot(h, node) && IsSlot(h, dupNode)
    requires h.cells[node].right == prev || h.cells[node].right == -1
    ensures h.cells[node].parent == -1 ==>
      Extends(h0, h) && DupFinished(h0, h, g.copy, c0, t) && g.copy.Node? && g.copy.id == dupRoot
    ensures h.cells[node].parent != -1 ==>
      && ClimbAt(h0, h, ClimbUp(g), h.cells[node].parent, h.cells[dupNode].parent, node, dupRoot, c0, t)
      && IsSlot(h, h.cells[node].parent) && IsSlot(h, h.cells[dupNode].parent)
      && ClimbTodo(ClimbUp(g)) <= ClimbTodo(g) && ClimbRank(ClimbUp(g)) < ClimbRank(g)
  {
    hide DupPart, DupAbove, DupFinished, Focus, RightExhausted, SameTokens;
    match g
    case Within(c, cur, d, copy, right) =>
      DupCells(h0, h, c, cur, d, copy, c0, t, right);
      DupStepUp(h0, h, c, cur, d, copy, c0, t, right);
      if !d.Top? {
        var g' := ClimbUp(g);
        DupCells(h0, h, g'.c, g'.cur, g'.d, g'.copy, c0, t, g'.right);
      }
    case Above(c, copy) =>
      DupStepAbove(h0, h, c, prev, copy, c0, t);
  }

  /** The next node to copy: `cur` at the end of `c`, into the hole at the end of `d`. */
  datatype Copying = Copying(c: Path, cur: Tree, d: Path)

  ghost predicate CopyingAt(h0: Store, h: Store, q: Copying, node: int, dupNode: int, onLeft: bool, onRight: bool,
                            dupRoot: int, c0: Path, t: Tree)
  {
    && DupTodo(h0, h, q.c, q.cur, q.d, c0, t) && q.cur.id == node && dupNode == ParentOf(q.d, ParentOf(c0))
    && onLeft == q.d.InLeft? && onRight == q.d.InRight? && (!q.d.Top? ==> RootOf(q.d, dupNode) == dupRoot)
  }

  ghost function CopyingTodo(q: Copying): nat { Size(q.cur) + Pending(q.c) }

  ghost function CopyLeft(q: Copying, n: nat): Copying {
    if q.cur.Null? then q
    else Copying(InLeft(q.cur.id, q.cur.tok, q.cur.right, q.c), q.cur.left, InLeft(n, q.cur.tok, Null, q.d))
  }

  ghost function CopyRight(g: Climb): Copying {
    if g.Above? || g.cur.Null? || g.copy.Null? then Copying(Top, Null, Top)
    else Copying(InRight(g.cur.id, g.cur.tok, g.cur.left, g.c), g.cur.right, InRight(g.copy.id, g.copy.tok, g.copy.left, g.d))
  }

  ghost function CopyLeaf(q: Copying, n: nat): Climb {
    Within(q.c, q.cur, q.d, if q.cur.Node? then Node(n, q.cur.tok, Null, Null) else Null, false)
  }

  lemma ClimbRight(h0: Store, h: Store, g: Climb, node: int, dupNode: int, prev: int, dupRoot: int, c0: Path, t: Tree)
    requires ClimbAt(h0, h, g, node, dupNode, prev, dupRoot, c0, t)
    requires IsSlot(h, node) && h.cells[node].right != prev && h.cells[node].right != -1
    ensures CopyingAt(h0, h, CopyRight(g), h.cells[node].right, dupNode, false, true, dupRoot, c0, t)
    ensures IsSlot(h, h.cells[node].right) && CopyingTodo(CopyRight(g)) == ClimbTodo(g)
  {
    match g
    case Within(c, cur, d, copy, right) =>
      DupCells(h0, h, c, cur, d, copy, c0, t, right);
      DupStepRight(h0, h, c, cur, d, copy, c0, t);
      var q := CopyRight(g);
      DupStepFill(h0, h, q.c, q.cur, q.d, c0, t);
    case Above(c, copy) =>
      DupStepAbove(h0, h, c, prev, copy, c0, t);
  }

  /** After the new cell: either go down to the left, or start to climb. */
  lemma CopyStep(h0: Store, h: Store, q: Copying, node: int, dupNode: int, onLeft: bool, onRight: bool, dupRoot: int, c0: Path, t: Tree)
    requires CopyingAt(h0, h, q, node, dupNode, onLeft, onRight, dupRoot, c0, t)
    ensures IsSlot(h, node)
    ensures var h' := FillHole(h, dupNode, onLeft, onRight, h.cells[node].tok); var n := |h.cells|;
      var dupRoot' := if !onLeft && !onRight then n else dupRoot;
      && IsSlot(h', node) && IsSlot(h', n)
      && (h'.cells[node].left != -1 ==>
            && CopyingAt(h0, h', CopyLeft(q, n), h'.cells[node].left, n, true, false, dupRoot', c0, t)
            && IsSlot(h', h'.cells[node].left) && CopyingTodo(CopyLeft(q, n)) < CopyingTodo(q))
      && (h'.cells[node].left == -1 ==>
            && ClimbAt(h0, h', CopyLeaf(q, n), node, n, -1, dupRoot', c0, t)
            && ClimbTodo(CopyLeaf(q, n)) < CopyingTodo(q))
  {
    hide DupTodo, DupPart, FillHole, Focus, Extends;
    DupStepFill(h0, h, q.c, q.cur, q.d, c0, t);
    if q.cur.left.Node? {
      var q' := CopyLeft(q, |h.cells|);
      assert RootOf(q'.d, |h.cells|) == if !onLeft && !onRight then |h.cells| else dupRoot;
      DupStepFill(h0, FillHole(h, dupNode, onLeft, onRight, h.cells[node].tok), q'.c, q'.cur, q'.d, c0, t);
    }
  }

  // ----- Steps of the postorder loop -----

  /** The loop is about to descend into the subtree at the focus. */
  ghost predicate PostTodo(fn: Visitor, f: Reshape, h: Store, c: Path, t: Tree, result: (Store, Tree)) {
    Focus(h, c, t) && PostUnwind(fn, f, PostVisit(fn, f, h, t), c) == result
  }

  /** Both subtrees at the focus are finished and the node itself is next. */
  ghost predicate PostReady(fn: Visitor, f: Reshape, h: Store, c: Path, t: Tree, result: (Store, Tree)) {
    Focus(h, c, t) && PostUnwind(fn, f, (fn(h, t.id), f(h, t)), c) == result
  }

  lemma PostDown(fn: Visitor, f: Reshape, h: Store, c: Path, t: Tree, result: (Store, Tree))
    requires PostTodo(fn, f, h, c, t, result)
    ensures t.left.Node? ==> PostTodo(fn, f, h, InLeft(t.id, t.tok, t.right, c), t.left, result)
    ensures t.left.Null? && t.right.Node? ==> PostTodo(fn, f, h, InRight(t.id, t.tok, t.left, c), t.right, result)
    ensures t.left.Null? && t.right.Null? ==> PostReady(fn, f, h, c, t, result)
  {
    if t.left.Node? {
      FocusLeft(h, c, t);
    } else {
      assert PostVisit(fn, f, h, t.left) == (h, t.left);
      if t.right.Node? {
        FocusRight(h, c, t);
      } else {
        assert PostVisit(fn, f, h, t.right) == (h, t.right);
      }
    }
  }

  lemma PostUp(fn: Visitor, f: Reshape, h: Store, c: Path, t: Tree, result: (Store, Tree))
    requires Focus(h, c, t) && PostUnwind(fn, f, (h, t), c) == result && !c.Top?
    ensures c.InRight? ==> PostReady(fn, f, h, c.up, Node(c.id, c.tok, c.left, t), result)
    ensures c.InLeft? && c.right.Null? ==> PostReady(fn, f, h, c.up, Node(c.id, c.tok, t, c.right), result)
    ensures c.InLeft? && c.right.Node? ==> PostTodo(fn, f, h, InRight(c.id, c.tok, t, c.up), c.right, result)
  {
    FocusUp(h, c, t);
    if c.InLeft? && c.right.Node? {
      FocusRight(h, c.up, Node(c.id, c.tok, t, c.right));
    }
  }

  class Dfa {
    var st: Store

    constructor (noSub: bool, nsub: nat)
      ensures st == Store([], [], [], [], seq(nsub, i requires 0 <= i => i), {}, noSub)
    {
      st := Store([], [], [], [], seq(nsub, i requires 0 <= i => i), {}, noSub);
    }

    method Preorder(root: int, fn: Visitor, ghost f: Reshape, ghost t: Tree)
      requires t.Node? && t.id == root && Distinct(t) && TreeAt(st, t, -1)
      requires Local(fn, f) && Shrinking(f)
      modifies this
      ensures st == PreVisit(fn, f, old(st), t).0
      ensures var t' := PreVisit(fn, f, old(st), t).1;
        t'.Node? && t'.id == root && Distinct(t') && TreeAt(st, t', -1)
    {
      var node := root;
      ghost var c, cur := Top, t;
      ghost var result := PreVisit(fn, f, st, t);
      FocusTop(st, t);
      while true
        invariant Focus(st, c, cur) && cur.id == node
        invariant PreUnwind(fn, f, PreVisit(fn, f, st, cur), c) == result
        invariant c.Top? ==> node == root
        invariant RootOf(c, node) == root
        decreases Size(cur) + Pending(c)
      {
        ghost var todo := Size(cur) + Pending(c);
        FocusCall(fn, f, st, c, cur);
        ghost var t1 := f(st, cur);
        assert Size(t1) <= Size(cur);
        st := fn(st, node);
        cur := t1;
        FocusCell(st, c, cur);
        if st.cells[node].left != -1 {
          FocusLeft(st, c, cur);
          node := st.cells[node].left;
          c, cur := InLeft(cur.id, cur.tok, cur.right, c), cur.left;
        } else {
          var prev := -1;
          ghost var upward := false;  // did we come up from the right child?
          while st.cells[node].right == prev || st.cells[node].right == -1
            invariant Focus(st, c, cur) && cur.id == node
            invariant RootOf(c, node) == root
            invariant prev == if upward then Ptr(cur.right) else Ptr(cur.left)
            invariant upward ==> prev != -1
            invariant !upward ==> PreUnwind(fn, f, var b := PreVisit(fn, f, st, cur.right);
                                    (b.0, Node(cur.id, cur.tok, cur.left, b.1)), c) == result
            invariant upward ==> PreUnwind(fn, f, (st, cur), c) == result
            invariant (if upward then 0 else Size(cur.right)) + Pending(c) < todo
            decreases Height(c)
          {
            prev := node;
            node := st.cells[node].parent;
            if node == -1 {
              return;
            }
            FocusUp(st, c, cur);
            upward := c.InRight?;
            cur, c := if c.InLeft? then Node(c.id, c.tok, cur, c.right) else Node(c.id, c.tok, c.left, cur), c.up;
          }
          FocusRight(st, c, cur);
          node := st.cells[node].right;
          c, cur := InRight(cur.id, cur.tok, cur.left, c), cur.right;
        }
      }
    }

    method Postorder(root: int, fn: Visitor, ghost f: Reshape, ghost t: Tree)
      requires t.Node? && t.id == root && Distinct(t) && TreeAt(st, t, -1)
      requires Local(fn, f)
      modifies this
      ensures st == PostVisit(fn, f, old(st), t).0
      ensures var t' := PostVisit(fn, f, old(st), t).1;
        t'.Node? && t'.id == root && Distinct(t') && TreeAt(st, t', -1)
    {
      var node := root;
      ghost var c, cur := Top, t;
      ghost var result := PostVisit(fn, f, st, t);
      FocusTop(st, t);
      while true
        invariant PostTodo(fn, f, st, c, cur, result) && cur.id == node && RootOf(c, node) == root
        decreases Size(cur) + Pending(c)
      {
        ghost var todo := Size(cur) + Pending(c);
        FocusCell(st, c, cur);
        while st.cells[node].left != -1 || st.cells[node].right != -1
          invariant PostTodo(fn, f, st, c, cur, result) && cur.id == node && RootOf(c, node) == root
          invariant IsSlot(st, node) && st.cells[node].left == Ptr(cur.left) && st.cells[node].right == Ptr(cur.right)
          invariant Size(cur) + Pending(c) <= todo
          decreases Size(cur)
        {
          PostDown(fn, f, st, c, cur, result);
          if st.cells[node].left != -1 {
            node := st.cells[node].left;
            c, cur := InLeft(cur.id, cur.tok, cur.right, c), cur.left;
          } else {
            node := st.cells[node].right;
            c, cur := InRight(cur.id, cur.tok, cur.left, c), cur.right;
          }
          FocusCell(st, c, cur);
        }
        PostDown(fn, f, st, c, cur, result);
        while true
          invariant PostReady(fn, f, st, c, cur, result) && cur.id == node && RootOf(c, node) == root
          invariant Pending(c) < todo
          decreases Height(c)
        {
          FocusCall(fn, f, st, c, cur);
          ghost var t1 := f(st, cur);
          st := fn(st, node);
          cur := t1;
          FocusCell(st, c, cur);
          if st.cells[node].parent == -1 {
            return;
          }
          var prev := node;
          node := st.cells[node].parent;
          PostUp(fn, f, st, c, cur, result);
          if !(st.cells[node].right == prev || st.cells[node].right == -1) {
            break;
          }
          cur, c := if c.InLeft? then Node(c.id, c.tok, cur, c.right) else Node(c.id, c.tok, c.left, cur), c.up;
        }
        node := st.cells[node].right;
        cur, c := c.right, InRight(c.id, c.tok, cur, c.up);
      }
    }

    /** create_token_tree */
    method NewTree(left: int, right: int, tok: Token, ghost l: Tree, ghost r: Tree, ghost lp: int, ghost rp: int)
      returns (tree: int)
      requires left == Ptr(l) && right == Ptr(r)
      requires TreeAt(st, l, lp) && TreeAt(st, r, rp) && Distinct(l) && Distinct(r) && Ids(l) !! Ids(r)
      modifies this
      ensures st == CreateTree(old(st), left, right, tok) && tree == |old(st).cells|
      ensures TreeAt(st, Node(tree, tok, l, r), -1) && Distinct(Node(tree, tok, l, r))
      ensures forall p | 0 <= p < |old(st).cells| && p != left && p != right :: SameLinks(old(st), st, p)
    {
      CreateTreeAt(st, l, r, lp, rp, tok);
      tree := |st.cells|;
      st := CreateTree(st, left, right, tok);
    }

    /** duplicate_tree. The climb at the end goes on past `root`, so it stops at the right
        place only if no ancestor of `root` still has a right child to come. */
    method DuplicateTree(root: int, ghost c0: Path, ghost t: Tree) returns (dupRoot: int, ghost copy: Tree)
      requires t.Node? && t.id == root && Focus(st, c0, t) && RightExhausted(c0)
      modifies this
      ensures DupFinished(old(st), st, copy, c0, t)
      ensures Extends(old(st), st) && copy.Node? && copy.id == dupRoot
    {
      ghost var h0 := st;
      FocusCell(h0, c0, t);
      DupStart(h0, c0, t);
      var node := root;
      dupRoot := -1;
      var dupNode := st.cells[root].parent;
      var onLeft, onRight := false, false;  // which field of dupNode p_new points to
      ghost var q := Copying(c0, t, Top);
      assert CopyingAt(h0, st, q, node, dupNode, onLeft, onRight, dupRoot, c0, t);
      hide CopyingAt, ClimbAt, DupFinished, Focus, FillHole, RightExhausted, Extends, Size, Pending,
           CopyingTodo, ClimbTodo, ClimbRank, ClimbUp, CopyLeft, CopyRight, CopyLeaf;
      while true
        invariant CopyingAt(h0, st, q, node, dupNode, onLeft, onRight, dupRoot, c0, t)
        decreases CopyingTodo(q)
      {
        ghost var todo := CopyingTodo(q);
        CopyStep(h0, st, q, node, dupNode, onLeft, onRight, dupRoot, c0, t);
        var new_ := |st.cells|;
        st := FillHole(st, dupNode, onLeft, onRight, st.cells[node].tok);
        if !onLeft && !onRight {
          dupRoot := new_;
        }
        dupNode := new_;
        if st.cells[node].left != -1 {
          q := CopyLeft(q, new_);
          node := st.cells[node].left;
          onLeft, onRight := true, false;
        } else {
          var prev := -1;
          ghost var g := CopyLeaf(q, new_);
          while st.cells[node].right == prev || st.cells[node].right == -1
            invariant IsSlot(st, node) && IsSlot(st, dupNode)
            invariant ClimbAt(h0, st, g, node, dupNode, prev, dupRoot, c0, t) && ClimbTodo(g) < todo
            decreases ClimbRank(g)
          {
            ClimbStep(h0, st, g, node, dupNode, prev, dupRoot, c0, t);
            prev := node;
            node := st.cells[node].parent;
            dupNode := st.cells[dupNode].parent;
            if node == -1 {
              return dupRoot, g.copy;
            }
            g := ClimbUp(g);
          }
          ClimbRight(h0, st, g, node, dupNode, prev, dupRoot, c0, t);
          q := CopyRight(g);
          node := st.cells[node].right;
          onLeft, onRight := false, true;
        }
      }
    }
  }

  /** The slot at the top of the path. */
  ghost function RootOf(c: Path, node: int): int {
    if c.Top? then node else RootOf(c.up, c.id)
  }
}
