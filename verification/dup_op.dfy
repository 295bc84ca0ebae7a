/** parse_dup_op: intervals become copies of the repeated tree. */
module DupOps {
  import opened RegexTree
  import opened TreeStore

  // ----- What a repetition means -----

  /** `t` matches `count` times in a row from i to j. */
  ghost predicate Power(m: Matcher, t: Tree, count: nat, i: nat, j: nat) {
    if count == 0 then i == j
    else exists k: nat | i <= k <= j :: Matches(m, t, i, k) && Power(m, t, count - 1, k, j)
  }

  /** At least `lo` and, unless `hi` is -1, at most `hi` times. */
  ghost predicate Repeated(m: Matcher, t: Tree, lo: nat, hi: int, i: nat, j: nat) {
    exists count: nat | lo <= count && (hi == -1 || count <= hi) :: Power(m, t, count, i, j)
  }

  /** Same spans for every matcher. */
  ghost predicate Means(u: Tree, t: Tree, lo: nat, hi: int) {
    forall m: Matcher, i: nat, j: nat :: Matches(m, u, i, j) <==> Repeated(m, t, lo, hi, i, j)
  }

  lemma {:induction false} PowerForward(m: Matcher, t: Tree, count: nat, i: nat, j: nat)
    requires Power(m, t, count, i, j)
    ensures i <= j
  {
    if count > 0 {
      var k: nat :| i <= k <= j && Matches(m, t, i, k) && Power(m, t, count - 1, k, j);
    }
  }

  lemma {:induction false} PowerSplit(m: Matcher, t: Tree, a: nat, b: nat, i: nat, j: nat) returns (k: nat)
    requires Power(m, t, a + b, i, j)
    ensures i <= k <= j && Power(m, t, a, i, k) && Power(m, t, b, k, j)
    decreases a
  {
    PowerForward(m, t, a + b, i, j);
    if a == 0 { return i; }
    var x: nat :| i <= x <= j && Matches(m, t, i, x) && Power(m, t, a + b - 1, x, j);
    k := PowerSplit(m, t, a - 1, b, x, j);
  }

  lemma {:induction false} PowerJoin(m: Matcher, t: Tree, a: nat, b: nat, i: nat, k: nat, j: nat)
    requires Power(m, t, a, i, k) && Power(m, t, b, k, j)
    ensures Power(m, t, a + b, i, j)
    decreases a
  {
    PowerForward(m, t, b, k, j);
    if a > 0 {
      var x: nat :| i <= x <= k && Matches(m, t, i, x) && Power(m, t, a - 1, x, k);
      PowerJoin(m, t, a - 1, b, x, k, j);
      assert Power(m, t, a + b - 1, x, j);
    }
  }

  lemma PowerAdd(m: Matcher, t: Tree, a: nat, b: nat, i: nat, j: nat)
    ensures Power(m, t, a + b, i, j) <==> exists k: nat | i <= k <= j :: Power(m, t, a, i, k) && Power(m, t, b, k, j)
  {
    if Power(m, t, a + b, i, j) {
      var k := PowerSplit(m, t, a, b, i, j);
      assert Power(m, t, a, i, k) && Power(m, t, b, k, j);
    } else if k: nat :| i <= k <= j && Power(m, t, a, i, k) && Power(m, t, b, k, j) {
      PowerJoin(m, t, a, b, i, k, j);
    }
  }

  lemma PowerOne(m: Matcher, t: Tree, i: nat, j: nat)
    ensures Power(m, t, 1, i, j) <==> i <= j && Matches(m, t, i, j)
  {
    if Power(m, t, 1, i, j) {
      var k: nat :| i <= k <= j && Matches(m, t, i, k) && Power(m, t, 0, k, j);
    } else if i <= j && Matches(m, t, i, j) {
      assert Power(m, t, 0, j, j);
    }
  }

  lemma PowerZero(m: Matcher, t: Tree, i: nat, j: nat)
    ensures Power(m, t, 0, i, j) <==> i == j
  {
  }

  lemma MatchesForward(m: Matcher, t: Tree, i: nat, j: nat)
    ensures Matches(m, t, i, j) ==> i <= j
  {
  }

  // ----- The shapes that parse_dup_op builds -----

  /** One tree after `n` copies, one more copy: `n + 1` in a row. */
  lemma ConcatCopies(u: Tree, t: Tree, c: Tree, n: nat, id: nat)
    requires Means(u, t, n, n) && SameTokens(t, c)
    ensures Means(Node(id, Concat, u, c), t, n + 1, n + 1)
  {
    var w := Node(id, Concat, u, c);
    forall m: Matcher, i: nat, j: nat ensures Matches(m, w, i, j) <==> Repeated(m, t, n + 1, n + 1, i, j) {
      PowerAdd(m, t, n, 1, i, j);
      forall k: nat ensures Matches(m, c, k, j) <==> k <= j && Power(m, t, 1, k, j) {
        SameTokensMatch(m, t, c, k, j);
        PowerOne(m, t, k, j);
        MatchesForward(m, c, k, j);
      }
      forall k: nat ensures Matches(m, u, i, k) <==> Power(m, t, n, i, k) {
        assert Matches(m, u, i, k) <==> Repeated(m, t, n, n, i, k);
      }
      if Power(m, t, n + 1, i, j) {
        var k: nat :| i <= k <= j && Power(m, t, n, i, k) && Power(m, t, 1, k, j);
        MatchConcat(m, w, i, k, j);
      }
      if Matches(m, w, i, j) {
        var k := ConcatSplits(m, w, i, j);
        assert Power(m, t, n, i, k) && Power(m, t, 1, k, j);
      }
    }
  }

  lemma OneCopy(t: Tree)
    ensures Means(t, t, 1, 1)
  {
    forall m: Matcher, i: nat, j: nat ensures Matches(m, t, i, j) <==> Repeated(m, t, 1, 1, i, j) {
      PowerOne(m, t, i, j);
      MatchesForward(m, t, i, j);
    }
  }

  lemma NoCopies(t: Tree)
    ensures Means(Null, t, 0, 0)
  {
    forall m: Matcher, i: nat, j: nat ensures Matches(m, Null, i, j) <==> Repeated(m, t, 0, 0, i, j) {
      assert Power(m, t, 0, i, j) <==> i == j;
    }
  }

  /** Repeating nothing is nothing. */
  lemma NothingRepeated(lo: nat, hi: int)
    requires hi == -1 || lo <= hi
    ensures Means(Null, Null, lo, hi)
  {
    forall m: Matcher, i: nat, j: nat ensures Matches(m, Null, i, j) <==> Repeated(m, Null, lo, hi, i, j) {
      if Repeated(m, Null, lo, hi, i, j) {
        var c: nat :| lo <= c && (hi == -1 || c <= hi) && Power(m, Null, c, i, j);
        PowerNull(m, c, i, j);
      }
      if i == j { PowerNull(m, lo, i, j); }
    }
  }

  lemma {:induction false} PowerNull(m: Matcher, count: nat, i: nat, j: nat)
    ensures Power(m, Null, count, i, j) <==> i == j
  {
    if count > 0 {
      PowerNull(m, count - 1, i, j);
      forall k: nat | i <= k <= j && Matches(m, Null, i, k) && Power(m, Null, count - 1, k, j) ensures i == j {
        PowerNull(m, count - 1, k, j);
      }
      if i == j { assert Matches(m, Null, i, i) && Power(m, Null, count - 1, i, j); }
    }
  }

  /** A copy, or nothing: at most one. */
  lemma OptionalFirst(c: Tree, t: Tree, id: nat)
    requires SameTokens(t, c)
    ensures Means(Node(id, Alt, c, Null), t, 0, 1)
  {
    var w := Node(id, Alt, c, Null);
    forall m: Matcher, i: nat, j: nat ensures Matches(m, w, i, j) <==> Repeated(m, t, 0, 1, i, j) {
      SameTokensMatch(m, t, c, i, j);
      PowerOne(m, t, i, j);
      MatchesForward(m, c, i, j);
      assert Power(m, t, 0, i, j) <==> i == j;
    }
  }

  /** (<at most n> copy)? is at most n + 1. */
  lemma OptionalMore(u: Tree, c: Tree, t: Tree, n: nat, id: nat, id': nat)
    requires Means(u, t, 0, n) && SameTokens(t, c)
    ensures Means(Node(id', Alt, Node(id, Concat, u, c), Null), t, 0, n + 1)
  {
    hide Power;
    var x := Node(id, Concat, u, c);
    var w := Node(id', Alt, x, Null);
    forall m: Matcher, i: nat, j: nat ensures Matches(m, w, i, j) <==> Repeated(m, t, 0, n + 1, i, j) {
      PowerZero(m, t, i, j);
      forall k: nat ensures Matches(m, c, k, j) <==> k <= j && Power(m, t, 1, k, j) {
        SameTokensMatch(m, t, c, k, j);
        PowerOne(m, t, k, j);
        MatchesForward(m, c, k, j);
      }
      if Matches(m, x, i, j) {
        var k := ConcatSplits(m, x, i, j);
        assert Repeated(m, t, 0, n, i, k);
        var count: nat :| 0 <= count <= n && Power(m, t, count, i, k);
        assert Power(m, t, count, i, k) && Power(m, t, 1, k, j);
        PowerAdd(m, t, count, 1, i, j);
        assert Repeated(m, t, 0, n + 1, i, j);
      }
      if Repeated(m, t, 0, n + 1, i, j) {
        var count: nat :| 0 <= count <= n + 1 && Power(m, t, count, i, j);
        PowerForward(m, t, count, i, j);
        if count > 0 {
          PowerAdd(m, t, count - 1, 1, i, j);
          var k: nat :| i <= k <= j && Power(m, t, count - 1, i, k) && Power(m, t, 1, k, j);
          assert Repeated(m, t, 0, n, i, k);
          MatchConcat(m, x, i, k, j);
        }
      }
    }
  }

  lemma StarCopies(c: Tree, t: Tree, id: nat)
    requires SameTokens(t, c)
    ensures Means(Node(id, DupAsterisk, c, Null), t, 0, -1)
  {
    var w := Node(id, DupAsterisk, c, Null);
    forall m: Matcher, i: nat, j: nat ensures Matches(m, w, i, j) <==> Repeated(m, t, 0, -1, i, j) {
      if Matches(m, w, i, j) { StarIsPower(m, c, t, w, i, j); }
      if Repeated(m, t, 0, -1, i, j) {
        var count: nat :| Power(m, t, count, i, j);
        PowerIsStar(m, c, t, w, count, i, j);
      }
    }
  }

  lemma {:induction false} StarIsPower(m: Matcher, c: Tree, t: Tree, w: Tree, i: nat, j: nat)
    requires SameTokens(t, c) && w.Node? && w.tok.DupAsterisk? && w.left == c && Matches(m, w, i, j)
    ensures exists count: nat :: Power(m, t, count, i, j)
    decreases j - i
  {
    if i == j {
      assert Power(m, t, 0, i, j);
    } else {
      var k: nat :| i < k <= j && Matches(m, c, i, k) && Matches(m, w, k, j);
      StarIsPower(m, c, t, w, k, j);
      var count: nat :| Power(m, t, count, k, j);
      SameTokensMatch(m, t, c, i, k);
      assert Power(m, t, count + 1, i, j);
    }
  }

  lemma {:induction false} PowerIsStar(m: Matcher, c: Tree, t: Tree, w: Tree, count: nat, i: nat, j: nat)
    requires SameTokens(t, c) && w.Node? && w.tok.DupAsterisk? && w.left == c && Power(m, t, count, i, j)
    ensures Matches(m, w, i, j)
    decreases count
  {
    if count > 0 {
      var k: nat :| i <= k <= j && Matches(m, t, i, k) && Power(m, t, count - 1, k, j);
      PowerIsStar(m, c, t, w, count - 1, k, j);
      SameTokensMatch(m, t, c, i, k);
    }
  }

  /** The mandatory copies, then the optional ones. */
  lemma MandatoryThenOptional(u: Tree, v: Tree, t: Tree, lo: nat, hi: int, id: nat)
    requires Means(u, t, lo, lo) && Means(v, t, 0, hi) && (hi == -1 || hi >= 0)
    ensures Means(Node(id, Concat, u, v), t, lo, if hi == -1 then -1 else lo + hi)
  {
    var w, hi' := Node(id, Concat, u, v), if hi == -1 then -1 else lo + hi;
    forall m: Matcher, i: nat, j: nat ensures Matches(m, w, i, j) <==> Repeated(m, t, lo, hi', i, j) {
      hide Power, Repeated, Matches;
      if Matches(m, w, i, j) {
        var k := ConcatSplits(m, w, i, j);
        assert Repeated(m, t, lo, lo, i, k) && Repeated(m, t, 0, hi, k, j);
        RepeatedJoin(m, t, lo, hi, i, k, j);
      }
      if Repeated(m, t, lo, hi', i, j) {
        var k := RepeatedSplit(m, t, lo, hi, i, j);
        assert Matches(m, u, i, k) && Matches(m, v, k, j);
        MatchConcat(m, w, i, k, j);
      }
    }
  }

  lemma RepeatedJoin(m: Matcher, t: Tree, lo: nat, hi: int, i: nat, k: nat, j: nat)
    requires Repeated(m, t, lo, lo, i, k) && Repeated(m, t, 0, hi, k, j) && (hi == -1 || hi >= 0)
    ensures Repeated(m, t, lo, if hi == -1 then -1 else lo + hi, i, j)
  {
    hide Power;
    var c: nat :| 0 <= c && (hi == -1 || c <= hi) && Power(m, t, c, k, j);
    PowerJoin(m, t, lo, c, i, k, j);
  }

  lemma RepeatedSplit(m: Matcher, t: Tree, lo: nat, hi: int, i: nat, j: nat) returns (k: nat)
    requires Repeated(m, t, lo, if hi == -1 then -1 else lo + hi, i, j) && (hi == -1 || hi >= 0)
    ensures i <= k <= j && Repeated(m, t, lo, lo, i, k) && Repeated(m, t, 0, hi, k, j)
  {
    hide Power;
    var hi' := if hi == -1 then -1 else lo + hi;
    var c: nat :| lo <= c && (hi' == -1 || c <= hi') && Power(m, t, c, i, j);
    k := PowerSplit(m, t, lo, c - lo, i, j);
  }

  // ----- Expanding in the arena -----

  /** Everything outside `ids` is as it was, up to new cells. */
  ghost predicate Owned(h0: Store, h: Store, ids: set<nat>) {
    && |h0.cells| <= |h.cells| && h == h0.(cells := h.cells)
    && forall p | 0 <= p < |h0.cells| && p !in ids :: h.cells[p] == h0.cells[p]
  }

  /** `t` is a tree of its own made of `ids` and new cells. */
  ghost predicate OwnTree(h0: Store, h: Store, t: Tree, ids: set<nat>) {
    Distinct(t) && TreeAt(h, t, -1) && forall p | p in Ids(t) :: p in ids || |h0.cells| <= p
  }

  /** The arena while copies are being made: `whole` is the tree under construction and
      `last` the copy of `e` made last, which hangs in it at the end of path `c`. */
  ghost predicate Building(h0: Store, h: Store, e: Tree, whole: Tree, c: Path, last: Tree) {
    && Owned(h0, h, Ids(e)) && OwnTree(h0, h, whole, Ids(e)) && whole.Node?
    && Focus(h, c, last) && RightExhausted(c) && SameTokens(e, last)
  }

  /** Copying the last copy. */
  lemma BuildingCopied(h0: Store, h: Store, h': Store, e: Tree, whole: Tree, c: Path, last: Tree, copy: Tree)
    requires Building(h0, h, e, whole, c, last) && Extends(h, h') && DupFinished(h, h', copy, c, last)
    ensures Owned(h0, h', Ids(e)) && OwnTree(h0, h', whole, Ids(e)) && SameTokens(e, copy)
    ensures Distinct(copy) && TreeAt(h', copy, ParentOf(c)) && Ids(whole) !! Ids(copy)
    ensures forall p | p in Ids(copy) :: |h0.cells| <= p
  {
    TreeAtSlots(h, whole, -1);
    TreeAtFrame(h, h', whole, -1);
    SameTokensTrans(e, last, copy);
  }

  /** A new node over two trees that are ours. */
  lemma NewOwn(h0: Store, h: Store, ids: set<nat>, l: Tree, r: Tree, lp: int, rp: int, tok: Token)
    requires Owned(h0, h, ids) && TreeAt(h, l, lp) && TreeAt(h, r, rp) && Distinct(l) && Distinct(r) && Ids(l) !! Ids(r)
    requires forall p | p in Ids(l) + Ids(r) :: p in ids || |h0.cells| <= p
    ensures var h' := CreateTree(h, Ptr(l), Ptr(r), tok); var t := Node(|h.cells|, tok, l, r);
      Owned(h0, h', ids) && OwnTree(h0, h', t, ids) && forall p | p in Ids(t) :: p in Ids(l) || p in Ids(r) || p == |h.cells|
  {
    hide TreeAt, Distinct;
    assert l.Node? ==> l.id in Ids(l);
    assert r.Node? ==> r.id in Ids(r);
    CreateTreeAt(h, l, r, lp, rp, tok);
    CreateTreeCells(h, Ptr(l), Ptr(r), tok);
  }

  /** A third tree is not disturbed. */
  lemma NewKeeps(h: Store, l: Tree, r: Tree, tok: Token, t: Tree, parent: int)
    requires TreeAt(h, t, parent) && Ids(l) !! Ids(t) && Ids(r) !! Ids(t) && (l.Null? || r.Null? || l.id != r.id)
    ensures TreeAt(CreateTree(h, Ptr(l), Ptr(r), tok), t, parent) && |h.cells| !in Ids(t)
  {
    TreeAtSlots(h, t, parent);
    assert l.Node? ==> l.id in Ids(l);
    assert r.Node? ==> r.id in Ids(r);
    CreateTreeCells(h, Ptr(l), Ptr(r), tok);
    TreeAtFrame(h, CreateTree(h, Ptr(l), Ptr(r), tok), t, parent);
  }

  /** One more copy at the right end of a concatenation. */
  lemma BuildConcat(h0: Store, h: Store, e: Tree, whole: Tree, copy: Tree, cp: int)
    requires Owned(h0, h, Ids(e)) && OwnTree(h0, h, whole, Ids(e)) && whole.Node? && copy.Node? && SameTokens(e, copy)
    requires Distinct(copy) && TreeAt(h, copy, cp) && Ids(whole) !! Ids(copy)
    requires forall p | p in Ids(copy) :: |h0.cells| <= p
    ensures var h' := CreateTree(h, whole.id, copy.id, Concat); var t := Node(|h.cells|, Concat, whole, copy);
      Building(h0, h', e, t, InRight(t.id, Concat, whole, Top), copy)
  {
    NewOwn(h0, h, Ids(e), whole, copy, -1, cp, Concat);
    var h', t := CreateTree(h, whole.id, copy.id, Concat), Node(|h.cells|, Concat, whole, copy);
    FocusTop(h', t);
    FocusRight(h', Top, t);
  }

  /** A first optional copy, or the star. */
  lemma BuildFirst(h0: Store, h: Store, e: Tree, copy: Tree, cp: int, tok: Token)
    requires Owned(h0, h, Ids(e)) && copy.Node? && SameTokens(e, copy) && Distinct(copy) && TreeAt(h, copy, cp)
    requires forall p | p in Ids(copy) :: p in Ids(e) || |h0.cells| <= p
    ensures var h' := CreateTree(h, copy.id, -1, tok); var t := Node(|h.cells|, tok, copy, Null);
      Building(h0, h', e, t, InLeft(t.id, tok, Null, Top), copy)
  {
    NewOwn(h0, h, Ids(e), copy, Null, cp, -1, tok);
    var h', t := CreateTree(h, copy.id, -1, tok), Node(|h.cells|, tok, copy, Null);
    FocusTop(h', t);
    FocusLeft(h', Top, t);
  }

  /** Make a concatenation optional. */
  lemma BuildOptional(h0: Store, h: Store, e: Tree, x: Tree, copy: Tree, left: Tree)
    requires x.Node? && x == Node(x.id, Concat, left, copy)
    requires Building(h0, h, e, x, InRight(x.id, Concat, left, Top), copy)
    ensures var h' := CreateTree(h, x.id, -1, Alt); var t := Node(|h.cells|, Alt, x, Null);
      Building(h0, h', e, t, InRight(x.id, Concat, left, InLeft(t.id, Alt, Null, Top)), copy)
  {
    NewOwn(h0, h, Ids(e), x, Null, -1, -1, Alt);
    var h', t := CreateTree(h, x.id, -1, Alt), Node(|h.cells|, Alt, x, Null);
    FocusTop(h', t);
    FocusLeft(h', Top, t);
    FocusRight(h', InLeft(t.id, Alt, Null, Top), x);
  }

  /** Trees the parser makes: well formed, without end markers and lowered groups. */
  ghost predicate Parsed(t: Tree) {
    WellFormed(t) && Plain(t)
  }

  ghost predicate Plain(t: Tree) {
    t.Node? ==>
      !t.tok.EndOfRe? && !t.tok.OpenSubexp? && !t.tok.CloseSubexp? && Plain(t.left) && Plain(t.right)
  }

  lemma {:induction false} SameTokensPlain(t: Tree, u: Tree)
    requires SameTokens(t, u) && Plain(t)
    ensures Plain(u)
  {
    if t.Node? { SameTokensPlain(t.left, u.left); SameTokensPlain(t.right, u.right); }
  }

  lemma CopyParsed(t: Tree, u: Tree)
    requires SameTokens(t, u)
    ensures Parsed(t) ==> Parsed(u)
  {
    if Parsed(t) { SameTokensWellFormed(t, u); SameTokensPlain(t, u); }
  }

  /** `u` is put together from copies of `e` by concatenation, option and star. */
  ghost predicate Copies(u: Tree, e: Tree) {
    || SameTokens(e, u)
    || (u.Node? && Copies(u.left, e) && (if u.tok.Concat? then Copies(u.right, e) else (u.tok.Alt? || u.tok.DupAsterisk?) && u.right.Null?))
  }

  lemma {:induction false} CopiesParsed(u: Tree, e: Tree)
    requires Copies(u, e) && e.Node? && Parsed(e)
    ensures Parsed(u) && u.Node?
  {
    if SameTokens(e, u) {
      CopyParsed(e, u);
    } else {
      CopiesParsed(u.left, e);
      if u.tok.Concat? { CopiesParsed(u.right, e); }
    }
  }

  // ----- The tree of a repetition, as a value -----

  /** `n` copies in a row. */
  ghost function Mandatory(e: Tree, n: nat): Tree
    requires n > 0
  {
    if n == 1 then e else Node(0, Concat, Mandatory(e, n - 1), e)
  }

  /** At most `n` copies in a row. */
  ghost function Optional(e: Tree, n: nat): Tree
    requires n > 0
  {
    if n == 1 then Node(0, Alt, e, Null) else Node(0, Alt, Node(0, Concat, Optional(e, n - 1), e), Null)
  }

  /** What comes after `lo` copies, up to `hi` in all. */
  ghost function Rest(e: Tree, lo: nat, hi: int): Tree
    requires hi == -1 || lo < hi
  {
    if hi == -1 then Node(0, DupAsterisk, e, Null) else Optional(e, hi - lo)
  }

  /** The tree for {lo,hi}. It is a null pointer for {0} and for an element that is one. */
  ghost function Expansion(e: Tree, lo: nat, hi: int): (u: Tree)
    requires hi == -1 || lo <= hi
  {
    if e.Null? || hi == 0 then Null
    else if lo == 0 then Rest(e, 0, hi)
    else if lo == hi then Mandatory(e, lo)
    else Node(0, Concat, Mandatory(e, lo), Rest(e, lo, hi))
  }

  lemma {:induction false} MandatoryCopied(e: Tree, n: nat)
    requires n > 0 && e.Node?
    ensures Copies(Mandatory(e, n), e) && Mandatory(e, n).Node?
  {
    SameTokensRefl(e);
    if n > 1 { MandatoryCopied(e, n - 1); }
  }

  lemma {:induction false} OptionalCopied(e: Tree, n: nat)
    requires n > 0 && e.Node?
    ensures Copies(Optional(e, n), e) && Optional(e, n).Node?
  {
    SameTokensRefl(e);
    if n > 1 {
      OptionalCopied(e, n - 1);
      assert Copies(Node(0, Concat, Optional(e, n - 1), e), e);
    }
  }

  /** The tree is made of copies; nothing is left of it only where there is nothing to match. */
  lemma ExpansionCopied(e: Tree, lo: nat, hi: int)
    requires hi == -1 || lo <= hi
    ensures Expansion(e, lo, hi).Null? <==> e.Null? || hi == 0
    ensures Expansion(e, lo, hi).Node? ==> Copies(Expansion(e, lo, hi), e)
  {
    if e.Node? && hi != 0 {
      SameTokensRefl(e);
      if lo > 0 { MandatoryCopied(e, lo); }
      if hi != -1 && lo < hi { OptionalCopied(e, hi - lo); }
      hide SameTokens, Mandatory, Optional;
      assert hi == -1 ==> Copies(Node(0, DupAsterisk, e, Null), e);
    }
  }

  lemma MandatoryNext(e: Tree, n: nat, u: Tree, copy: Tree, id: nat)
    requires n > 0 && SameTokens(Mandatory(e, n), u) && SameTokens(e, copy)
    ensures SameTokens(Mandatory(e, n + 1), Node(id, Concat, u, copy))
  {
  }

  lemma OptionalStart(e: Tree, copy: Tree, id: nat)
    requires SameTokens(e, copy)
    ensures SameTokens(Optional(e, 1), Node(id, Alt, copy, Null))
  {
  }

  lemma StarStart(e: Tree, copy: Tree, id: nat)
    requires SameTokens(e, copy)
    ensures SameTokens(Node(0, DupAsterisk, e, Null), Node(id, DupAsterisk, copy, Null))
  {
  }

  lemma OptionalNext(e: Tree, n: nat, u: Tree, copy: Tree, id: nat, id': nat)
    requires n > 0 && SameTokens(Optional(e, n), u) && SameTokens(e, copy)
    ensures SameTokens(Optional(e, n + 1), Node(id', Alt, Node(id, Concat, u, copy), Null))
  {
    assert SameTokens(Node(0, Concat, Optional(e, n), e), Node(id, Concat, u, copy));
  }

  lemma {:induction false} MandatorySame(e: Tree, f: Tree, n: nat)
    requires n > 0 && SameTokens(e, f)
    ensures SameTokens(Mandatory(e, n), Mandatory(f, n))
  {
    if n > 1 { MandatorySame(e, f, n - 1); }
  }

  lemma {:induction false} OptionalSame(e: Tree, f: Tree, n: nat)
    requires n > 0 && SameTokens(e, f)
    ensures SameTokens(Optional(e, n), Optional(f, n))
  {
    if n > 1 {
      OptionalSame(e, f, n - 1);
      OptionalNext(e, n - 1, Optional(f, n - 1), f, 0, 0);
    }
  }

  /** Only the tokens of the element matter. */
  lemma ExpansionSame(e: Tree, f: Tree, lo: nat, hi: int)
    requires SameTokens(e, f) && (hi == -1 || lo <= hi)
    ensures SameTokens(Expansion(e, lo, hi), Expansion(f, lo, hi))
  {
    if e.Node? && hi != 0 {
      if lo > 0 { MandatorySame(e, f, lo); }
      if hi != -1 && lo < hi { OptionalSame(e, f, hi - lo); }
    }
  }

  /** What that tree means. */
  lemma {:induction false} MandatoryMeans(e: Tree, n: nat)
    requires n > 0
    ensures Means(Mandatory(e, n), e, n, n)
  {
    if n == 1 {
      OneCopy(e);
    } else {
      MandatoryMeans(e, n - 1);
      SameTokensRefl(e);
      ConcatCopies(Mandatory(e, n - 1), e, e, n - 1, 0);
    }
  }

  lemma {:induction false} OptionalMeans(e: Tree, n: nat)
    requires n > 0
    ensures Means(Optional(e, n), e, 0, n)
  {
    SameTokensRefl(e);
    if n == 1 {
      OptionalFirst(e, e, 0);
    } else {
      OptionalMeans(e, n - 1);
      OptionalMore(Optional(e, n - 1), e, e, n - 1, 0, 0);
    }
  }

  lemma ExpansionMeans(e: Tree, lo: nat, hi: int)
    requires hi == -1 || lo <= hi
    ensures Means(Expansion(e, lo, hi), e, lo, hi)
  {
    hide Means;
    if e.Null? {
      NothingRepeated(lo, hi);
    } else if hi == 0 {
      NoCopies(e);
    } else {
      SameTokensRefl(e);
      if hi == -1 { StarCopies(e, e, 0); } else if lo < hi { OptionalMeans(e, hi - lo); }
      if lo > 0 { MandatoryMeans(e, lo); }
      if lo > 0 && lo != hi {
        MandatoryThenOptional(Mandatory(e, lo), Rest(e, lo, hi), e, lo, if hi == -1 then -1 else hi - lo, 0);
      }
    }
  }

  lemma BuildingFacts(h0: Store, h: Store, e: Tree, whole: Tree, c: Path, last: Tree)
    requires Building(h0, h, e, whole, c, last)
    ensures Focus(h, c, last) && RightExhausted(c) && last.Node? && whole.Node?
    ensures Owned(h0, h, Ids(e)) && OwnTree(h0, h, whole, Ids(e)) && SameTokens(e, last)
    ensures Distinct(whole) && TreeAt(h, whole, -1)
  {
  }

  lemma BuildingStart(h0: Store, e: Tree)
    requires e.Node? && TreeAt(h0, e, -1) && Distinct(e)
    ensures Building(h0, h0, e, e, Top, e)
  {
    SameTokensRefl(e);
  }

  /** `elem = duplicate_tree (elem); tree = create_tree (tree, elem, CONCAT)` */
  method AppendCopy(dfa: Dfa, last: int, tree: int, ghost h0: Store, ghost e: Tree, ghost u: Tree, ghost c: Path, ghost lastT: Tree)
    returns (last': int, tree': nat, ghost copy: Tree)
    requires u.Node? && lastT.Node? && tree == u.id && last == lastT.id && Building(h0, dfa.st, e, u, c, lastT)
    modifies dfa
    ensures Building(h0, dfa.st, e, Node(tree', Concat, u, copy), InRight(tree', Concat, u, Top), copy)
    ensures copy.Node? && last' == copy.id && SameTokens(e, copy)
    ensures |old(dfa.st).cells| <= |dfa.st.cells| && tree' >= |old(dfa.st).cells| && AllFrom(Ids(copy), |old(dfa.st).cells|)
    ensures forall p | 0 <= p < |old(dfa.st).cells| && p != tree :: dfa.st.cells[p] == old(dfa.st).cells[p]
  {
    hide Building, Owned, OwnTree, SameTokens, Focus, RightExhausted, DupFinished, TreeAt, Distinct;
    ghost var h := dfa.st;
    BuildingFacts(h0, h, e, u, c, lastT);
    last', copy := dfa.DuplicateTree(last, c, lastT);
    ghost var h1 := dfa.st;
    BuildingCopied(h0, h, h1, e, u, c, lastT, copy);
    DupFinishedIds(h, h1, copy, c, lastT);
    BuildConcat(h0, h1, e, u, copy, ParentOf(c));
    OwnTreeAt(h0, h1, u, Ids(e));
    CreateTreeCells(h1, tree, last', Concat);
    tree' := dfa.NewTree(tree, last', Concat, u, copy, -1, ParentOf(c));
  }

  lemma DupFinishedIds(h0: Store, h: Store, copy: Tree, c0: Path, t: Tree)
    requires DupFinished(h0, h, copy, c0, t)
    ensures AllFrom(Ids(copy), |h0.cells|) && copy.Node? && copy.id in Ids(copy)
  {
  }

  lemma OwnTreeAt(h0: Store, h: Store, u: Tree, ids: set<nat>)
    requires OwnTree(h0, h, u, ids)
    ensures TreeAt(h, u, -1) && Distinct(u)
  {
  }

  /** The first loop of parse_dup_op: `start` copies in a row. */
  method MandatoryCopies(dfa: Dfa, elem: int, start: nat, ghost e: Tree)
    returns (tree: int, last: int, ghost u: Tree, ghost c: Path, ghost lastT: Tree)
    requires start > 0 && e.Node? && elem == e.id && TreeAt(dfa.st, e, -1) && Distinct(e)
    modifies dfa
    ensures u.Node? && lastT.Node? && tree == u.id && last == lastT.id
    ensures Building(old(dfa.st), dfa.st, e, u, c, lastT)
    ensures SameTokens(Mandatory(e, start), u)
  {
    hide Building, SameTokens;
    ghost var h0 := dfa.st;
    BuildingStart(h0, e);
    SameTokensRefl(e);
    tree, last, u, c, lastT := elem, elem, e, Top, e;
    var i := 2;
    while i <= start
      invariant 2 <= i <= start + 1 && u.Node? && lastT.Node? && tree == u.id && last == lastT.id
      invariant Building(h0, dfa.st, e, u, c, lastT)
      invariant SameTokens(Mandatory(e, i - 1), u)
    {
      var tree';
      ghost var copy;
      last, tree', copy := AppendCopy(dfa, last, tree, h0, e, u, c, lastT);
      MandatoryNext(e, i - 1, u, copy, tree');
      u, c, lastT := Node(tree', Concat, u, copy), InRight(tree', Concat, u, Top), copy;
      tree := tree';
      i := i + 1;
    }
  }

  /** The second loop: (...(<first>?<copy>)?...)?, with `count` - 1 more copies. `mand` is
      kept aside. */
  method OptionalCopies(dfa: Dfa, first: int, count: nat, ghost h0: Store, ghost e: Tree, ghost f: Tree, ghost fp: int, ghost mand: Tree)
    returns (tree: int, ghost u: Tree)
    requires count > 0 && f.Node? && first == f.id && Owned(h0, dfa.st, Ids(e)) && SameTokens(e, f)
    requires Distinct(f) && TreeAt(dfa.st, f, fp) && (forall p | p in Ids(f) :: p in Ids(e) || |h0.cells| <= p)
    requires OwnTree(h0, dfa.st, mand, Ids(e)) && Ids(mand) !! Ids(f)
    modifies dfa
    ensures Owned(h0, dfa.st, Ids(e)) && OwnTree(h0, dfa.st, u, Ids(e)) && u.Node? && tree == u.id
    ensures OwnTree(h0, dfa.st, mand, Ids(e)) && Ids(mand) !! Ids(u)
    ensures SameTokens(Optional(e, count), u)
  {
    hide SameTokens, Owned, Building, RightExhausted, Focus;
    BuildFirst(h0, dfa.st, e, f, fp, Alt);
    NewKeeps(dfa.st, f, Null, Alt, mand, -1);
    OptionalStart(e, f, |dfa.st.cells|);
    tree := dfa.NewTree(first, -1, Alt, f, Null, fp, -1);
    u := Node(tree, Alt, f, Null);
    var last := first;
    ghost var c, lastT := InLeft(tree, Alt, Null, Top), f;
    var i := 2;
    while i <= count
      invariant 2 <= i <= count + 1 && u.Node? && lastT.Node? && tree == u.id && last == lastT.id
      invariant Building(h0, dfa.st, e, u, c, lastT) && OwnTree(h0, dfa.st, mand, Ids(e)) && Ids(mand) !! Ids(u)
      invariant SameTokens(Optional(e, i - 1), u)
    {
      last, tree, u, c, lastT := AppendOptional(dfa, last, tree, i - 1, h0, e, u, c, lastT, mand);
      i := i + 1;
    }
    BuildingFacts(h0, dfa.st, e, u, c, lastT);
  }

  /** One round of that loop. */
  method AppendOptional(dfa: Dfa, last: int, tree: int, ghost n: nat, ghost h0: Store, ghost e: Tree, ghost u: Tree,
                        ghost c: Path, ghost lastT: Tree, ghost mand: Tree)
    returns (last': int, tree': nat, ghost u': Tree, ghost c': Path, ghost lastT': Tree)
    requires u.Node? && lastT.Node? && tree == u.id && last == lastT.id && Building(h0, dfa.st, e, u, c, lastT)
    requires OwnTree(h0, dfa.st, mand, Ids(e)) && Ids(mand) !! Ids(u)
    requires n > 0 && SameTokens(Optional(e, n), u)
    modifies dfa
    ensures u'.Node? && lastT'.Node? && tree' == u'.id && last' == lastT'.id && Building(h0, dfa.st, e, u', c', lastT')
    ensures OwnTree(h0, dfa.st, mand, Ids(e)) && Ids(mand) !! Ids(u')
    ensures SameTokens(Optional(e, n + 1), u')
  {
    hide SameTokens, Optional, Owned, Building, RightExhausted, Focus;
    ghost var h := dfa.st;
    var x;
    ghost var copy;
    last', x, copy := AppendCopy(dfa, last, tree, h0, e, u, c, lastT);
    ghost var w := Node(x, Concat, u, copy);
    assert u.id in Ids(u);
    TreeAtSlots(h, mand, -1);
    TreeAtFrame(h, dfa.st, mand, -1);
    assert Ids(w) == {x} + Ids(u) + Ids(copy);
    BuildOptional(h0, dfa.st, e, w, copy, u);
    BuildingFacts(h0, dfa.st, e, w, InRight(x, Concat, u, Top), copy);
    NewKeeps(dfa.st, w, Null, Alt, mand, -1);
    tree' := dfa.NewTree(x, -1, Alt, w, Null, -1, -1);
    u' := Node(tree', Alt, w, Null);
    assert Ids(u') == {tree'} + Ids(w);
    c', lastT' := InRight(x, Concat, u, InLeft(tree', Alt, Null, Top)), copy;
    OptionalNext(e, n, u, copy, x, tree');
  }

  /** The copy that the optional part starts from, and the mandatory part set aside. */
  lemma SetAside(h0: Store, h: Store, h': Store, e: Tree, mand: Tree, c: Path, last: Tree, copy: Tree)
    requires Building(h0, h, e, mand, c, last) && Extends(h, h') && DupFinished(h, h', copy, c, last)
    ensures Owned(h0, h', Ids(e)) && OwnTree(h0, h', mand, Ids(e)) && Ids(mand) !! Ids(copy) && copy.Node?
    ensures SameTokens(e, copy) && Distinct(copy) && TreeAt(h', copy, ParentOf(c))
    ensures forall p | p in Ids(copy) :: p in Ids(e) || |h0.cells| <= p
  {
    BuildingCopied(h0, h, h', e, mand, c, last, copy);
  }

  lemma NothingAside(h0: Store, e: Tree)
    requires e.Node? && TreeAt(h0, e, -1) && Distinct(e)
    ensures Owned(h0, h0, Ids(e)) && OwnTree(h0, h0, Null, Ids(e)) && Ids(Null) !! Ids(e) && SameTokens(e, e)
    ensures forall p | p in Ids(e) :: p in Ids(e) || |h0.cells| <= p
  {
    SameTokensRefl(e);
  }

  /** The tail of parse_dup_op: expand `elem` to the tree for {start,end}, where -1 stands
      for no upper bound. */
  method ExpandDup(dfa: Dfa, elem: int, start: nat, end: int, ghost e: Tree) returns (tree: int, ghost u: Tree)
    requires elem == Ptr(e) && TreeAt(dfa.st, e, -1) && Distinct(e) && (end == -1 || start <= end)
    modifies dfa
    ensures Owned(old(dfa.st), dfa.st, Ids(e)) && OwnTree(old(dfa.st), dfa.st, u, Ids(e)) && tree == Ptr(u)
    ensures SameTokens(Expansion(e, start, end), u)
  {
    if elem == -1 { return -1, Null; }
    if start == 0 && end == 0 { return -1, Null; }
    hide SameTokens, Mandatory, Optional, Owned, Building, RightExhausted, Focus, DupFinished, TreeAt, Distinct, OwnTree;
    ghost var h0 := dfa.st;
    var first, oldTree := elem, -1;
    ghost var f, fp, mand := e, -1, Null;
    NothingAside(h0, e);
    if start > 0 {
      var last;
      ghost var c, lastT;
      tree, last, u, c, lastT := MandatoryCopies(dfa, elem, start, e);
      BuildingFacts(h0, dfa.st, e, u, c, lastT);
      if start == end { return; }
      ghost var h := dfa.st;
      first, f := dfa.DuplicateTree(last, c, lastT);
      SetAside(h0, h, dfa.st, e, u, c, lastT, f);
      oldTree, mand, fp := tree, u, ParentOf(c);
    }
    if end == -1 {
      tree, u := StarNode(dfa, first, h0, e, f, fp, mand);
    } else {
      tree, u := OptionalCopies(dfa, first, end - start, h0, e, f, fp, mand);
    }
    if oldTree != -1 {
      tree, u := JoinDup(dfa, oldTree, tree, h0, e, mand, u, start, end);
    }
  }

  /** The node for any number of times. `mand` is kept aside. */
  method StarNode(dfa: Dfa, first: int, ghost h0: Store, ghost e: Tree, ghost f: Tree, ghost fp: int, ghost mand: Tree)
    returns (tree: int, ghost u: Tree)
    requires f.Node? && first == f.id && Owned(h0, dfa.st, Ids(e)) && SameTokens(e, f)
    requires Distinct(f) && TreeAt(dfa.st, f, fp) && (forall p | p in Ids(f) :: p in Ids(e) || |h0.cells| <= p)
    requires OwnTree(h0, dfa.st, mand, Ids(e)) && Ids(mand) !! Ids(f)
    modifies dfa
    ensures Owned(h0, dfa.st, Ids(e)) && OwnTree(h0, dfa.st, u, Ids(e)) && u.Node? && tree == u.id
    ensures OwnTree(h0, dfa.st, mand, Ids(e)) && Ids(mand) !! Ids(u)
    ensures SameTokens(Node(0, DupAsterisk, e, Null), u)
  {
    hide SameTokens, Owned, Building, RightExhausted, Focus, TreeAt, Distinct, OwnTree;
    BuildFirst(h0, dfa.st, e, f, fp, DupAsterisk);
    BuildingFacts(h0, CreateTree(dfa.st, first, -1, DupAsterisk), e, Node(|dfa.st.cells|, DupAsterisk, f, Null),
                  InLeft(|dfa.st.cells|, DupAsterisk, Null, Top), f);
    KeepAside(h0, dfa.st, f, DupAsterisk, mand, Ids(e));
    StarStart(e, f, |dfa.st.cells|);
    tree := dfa.NewTree(first, -1, DupAsterisk, f, Null, fp, -1);
    u := Node(tree, DupAsterisk, f, Null);
  }

  /** The mandatory copies, then the others. */
  method JoinDup(dfa: Dfa, oldTree: int, rest: int, ghost h0: Store, ghost e: Tree, ghost mand: Tree, ghost v: Tree,
                 ghost start: nat, ghost end: int)
    returns (tree: int, ghost u: Tree)
    requires mand.Node? && v.Node? && oldTree == mand.id && rest == v.id && Owned(h0, dfa.st, Ids(e))
    requires OwnTree(h0, dfa.st, mand, Ids(e)) && OwnTree(h0, dfa.st, v, Ids(e)) && Ids(mand) !! Ids(v)
    requires start > 0 && (end == -1 || start < end)
    requires SameTokens(Mandatory(e, start), mand) && SameTokens(Rest(e, start, end), v)
    modifies dfa
    ensures Owned(h0, dfa.st, Ids(e)) && OwnTree(h0, dfa.st, u, Ids(e)) && tree == Ptr(u)
    ensures SameTokens(Node(0, Concat, Mandatory(e, start), Rest(e, start, end)), u)
  {
    hide Mandatory, Rest, Owned, TreeAt, Distinct, OwnTree;
    JoinParts(h0, dfa.st, mand, v, Ids(e));
    tree := dfa.NewTree(oldTree, rest, Concat, mand, v, -1, -1);
    u := Node(tree, Concat, mand, v);
  }

  lemma KeepAside(h0: Store, h: Store, f: Tree, tok: Token, mand: Tree, ids: set<nat>)
    requires OwnTree(h0, h, mand, ids) && Ids(mand) !! Ids(f) && f.Node?
    ensures OwnTree(h0, CreateTree(h, f.id, -1, tok), mand, ids) && Ids(mand) !! Ids(Node(|h.cells|, tok, f, Null))
  {
    NewKeeps(h, f, Null, tok, mand, -1);
    assert Ids(Node(|h.cells|, tok, f, Null)) == {|h.cells|} + Ids(f);
  }

  lemma JoinParts(h0: Store, h: Store, u: Tree, v: Tree, ids: set<nat>)
    requires Owned(h0, h, ids) && OwnTree(h0, h, u, ids) && OwnTree(h0, h, v, ids) && Ids(u) !! Ids(v)
    ensures var h' := CreateTree(h, Ptr(u), Ptr(v), Concat);
      Owned(h0, h', ids) && OwnTree(h0, h', Node(|h.cells|, Concat, u, v), ids)
    ensures TreeAt(h, u, -1) && TreeAt(h, v, -1) && Distinct(u) && Distinct(v)
  {
    NewOwn(h0, h, ids, u, v, -1, -1, Concat);
  }
}
