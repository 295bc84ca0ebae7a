/** The groups and back-references of the trees that the parser makes: why optimize_subexps
    renumbers every back-reference to a group that stays. */
module GroupOrder {
  import opened RegexTree
  import opened TreeStore
  import opened GroupPasses
  import opened Lowering
  import opened DupOps

  /** A group with nothing but another group in it. */
  ghost predicate Outer(t: Tree) { t.Node? && t.tok.Subexp? && t.left.Node? && t.left.tok.Subexp? }

  /** What optimize_subexps visits below the node. */
  ghost function Visited(t: Tree): Tree
    requires t.Node?
  {
    if Outer(t) then t.left.left else t.left
  }

  /** The groups that optimize_subexps strips, and those that it keeps. */
  ghost function Struck(t: Tree): set<nat>
    decreases t
  {
    if t.Null? then {}
    else if Outer(t) then {t.left.tok.idx} + Struck(t.left.left) + Struck(t.right)
    else Struck(t.left) + Struck(t.right)
  }

  ghost function Remaining(t: Tree): set<nat>
    decreases t
  {
    if t.Null? then {}
    else if Outer(t) then {t.tok.idx} + Remaining(t.left.left) + Remaining(t.right)
    else Own(t) + Remaining(t.left) + Remaining(t.right)
  }

  /** For each group that is stripped, the group that it was stripped from. */
  ghost function Outers(t: Tree): map<nat, nat>
    decreases t
  {
    if t.Null? then map[]
    else if Outer(t) then map[t.left.tok.idx := t.tok.idx] + Outers(t.left.left) + Outers(t.right)
    else Outers(t.left) + Outers(t.right)
  }

  /** A group that occurs more than once is stripped each time from the group that `f` says,
      which has a smaller number. */
  ghost predicate Follows(t: Tree, f: map<nat, nat>)
    decreases t
  {
    t.Node? ==>
      && (if Outer(t)
          then t.left.tok.idx in f && f[t.left.tok.idx] == t.tok.idx < t.left.tok.idx && Follows(t.left.left, f)
          else Follows(t.left, f))
      && Follows(t.right, f)
  }

  ghost predicate Traced(t: Tree) {
    Follows(t, Outers(t)) && (t.Node? && t.tok.Subexp? ==> Follows(t.left, Outers(t.left)))
  }

  /** The number that a group has after the pass. */
  ghost function Final(f: map<nat, nat>, k: nat): nat { if k in f then f[k] else k }

  /** The tree after the pass. */
  ghost function Resolved(t: Tree, f: map<nat, nat>): Tree
    decreases t
  {
    if t.Null? then t
    else
      Node(t.id, if t.tok.BackRef? then BackRef(Final(f, t.tok.idx)) else t.tok,
           Resolved(if Outer(t) then t.left.left else t.left, f), Resolved(t.right, f))
  }

  /** On its way optimize_subexps meets no back-reference to a group of `struck` before it
      has stripped that group; `done` have been stripped already. */
  ghost predicate RefsAfter(t: Tree, struck: set<nat>, done: set<nat>)
    decreases t
  {
    t.Node? ==>
      && (t.tok.BackRef? && t.tok.idx in struck ==> t.tok.idx in done)
      && (if Outer(t)
          then RefsAfter(t.left.left, struck, done + {t.left.tok.idx})
          else RefsAfter(t.left, struck, done))
      && RefsAfter(t.right, struck, done + if Outer(t) then {t.left.tok.idx} + Struck(t.left.left) else Struck(t.left))
  }

  // ----- What the pass makes of such a tree -----

  /** Groups stripped so far are mapped to where they were stripped from, the others to
      themselves. */
  ghost predicate MapIs(map_: seq<nat>, f: map<nat, nat>, done: set<nat>) {
    done <= f.Keys && forall k | 0 <= k < |map_| :: map_[k] == if k in done then f[k] else k
  }

  /** What groups are stripped from stays. */
  ghost predicate Outermost(f: map<nat, nat>) { forall k | k in f :: f[k] !in f }

  ghost predicate RefsBelow(t: Tree, b: nat) { forall k | k in Refs(t) :: k < b }

  /** The conditions for a visit. */
  ghost predicate Resolvable(t: Tree, f: map<nat, nat>, done: set<nat>, b: nat) {
    Follows(t, f) && RefsAfter(t, f.Keys, done) && Remaining(t) !! f.Keys && RefsBelow(t, b) && GroupsBelow(t, b)
  }

  ghost function DoneNext(t: Tree, done: set<nat>): set<nat> { if Outer(t) then done + {t.left.tok.idx} else done }

  /** One call of optimize_subexps. */
  lemma ResolveCall(h: Store, t: Tree, parent: int, f: map<nat, nat>, done: set<nat>)
    requires t.Node? && TreeAt(h, t, parent) && WellFormed(t) && MapIs(h.subexpMap, f, done) && Outermost(f)
    requires Resolvable(t, f, done, |h.subexpMap|)
    ensures var t1 := OptimizeTree(h, t); var h1 := OptimizeSubexps(h, t.id);
      && t1 == Node(t.id, if t.tok.BackRef? then BackRef(Final(f, t.tok.idx)) else t.tok, Visited(t), t.right)
      && |h1.subexpMap| == |h.subexpMap| && h1.noSub == h.noSub && MapIs(h1.subexpMap, f, DoneNext(t, done))
      && h1.usedBkref == (if t.tok.BackRef? then h.usedBkref + {Final(f, t.tok.idx)}
                          else if Outer(t) then WithoutSmall(h.usedBkref, t.left.tok.idx) else h.usedBkref)
      && WellFormed(t1.left) && WellFormed(t1.right)
  {
    if t.left.Node? { assert h.cells[t.left.id].tok == t.left.tok; }
    if t.tok.BackRef? {
      assert t.tok.idx in Refs(t);
    } else if Outer(t) {
      assert t.tok.idx in Groups(t) && t.left.tok.idx in Groups(t) by { assert t.left.tok.idx in Groups(t.left); }
      assert t.tok.idx in Remaining(t);
    }
  }

  /** The bit of a group is only there to be cleared within the word. */
  ghost function WithoutSmall(used: set<nat>, k: nat): set<nat> { if k < BITSET_WORD_BITS then used - {k} else used }

  lemma BelowParts(t: Tree)
    requires t.Node?
    ensures Refs(Visited(t)) <= Refs(t) && Refs(t.right) <= Refs(t)
    ensures Groups(Visited(t)) <= Groups(t) && Groups(t.right) <= Groups(t)
  {
    if Outer(t) { assert Refs(t.left.left) <= Refs(t.left) && Groups(t.left.left) <= Groups(t.left); }
  }

  lemma VisitParts(t: Tree, struck: set<nat>, done: set<nat>)
    requires t.Node?
    ensures Struck(t) == DoneNext(t, {}) + Struck(Visited(t)) + Struck(t.right)
    ensures Remaining(t) == Own(t) + Remaining(Visited(t)) + Remaining(t.right)
    ensures RefsAfter(t, struck, done) ==>
      RefsAfter(Visited(t), struck, DoneNext(t, done)) && RefsAfter(t.right, struck, DoneNext(t, done) + Struck(Visited(t)))
  {
    if Outer(t) {
      assert done + {t.left.tok.idx} + Struck(t.left.left) == done + ({t.left.tok.idx} + Struck(t.left.left));
    }
  }

  /** What is left to visit satisfies the same conditions. */
  lemma ResolveParts(t: Tree, f: map<nat, nat>, done: set<nat>, b: nat)
    requires t.Node? && Resolvable(t, f, done, b)
    ensures Resolvable(Visited(t), f, DoneNext(t, done), b)
    ensures Resolvable(t.right, f, DoneNext(t, done) + Struck(Visited(t)), b)
    ensures done + Struck(t) == DoneNext(t, done) + Struck(Visited(t)) + Struck(t.right)
  {
    BelowParts(t);
    VisitParts(t, f.Keys, done);
    hide Refs, Groups, Struck, Remaining, RefsAfter;
  }

  /** The bits that are cleared, and those that are set. */
  ghost function UsedAfter(t: Tree, f: map<nat, nat>, used: set<nat>): set<nat> {
    (used - Small(Struck(t))) + Refs(Resolved(t, f))
  }

  ghost function Small(s: set<nat>): set<nat> { set k | k in s && k < BITSET_WORD_BITS }

  lemma UsedSets(keys: set<nat>, u0: set<nat>, d: set<nat>, r0: set<nat>, a: set<nat>, r1: set<nat>, b: set<nat>, r2: set<nat>)
    requires a <= keys && b <= keys && r0 !! keys && r1 !! keys
    ensures ((((u0 - d) + r0) - a + r1) - b) + r2 == (u0 - (d + a + b)) + (r0 + r1 + r2)
  {
  }

  lemma UsedJoin(t: Tree, f: map<nat, nat>, u0: set<nat>, u1: set<nat>, u2: set<nat>, u3: set<nat>)
    requires t.Node? && WellFormed(t) && Outermost(f) && forall k | k in Struck(t) :: k in f
    requires u1 == if t.tok.BackRef? then u0 + {Final(f, t.tok.idx)}
                   else if Outer(t) then WithoutSmall(u0, t.left.tok.idx) else u0
    requires u2 == UsedAfter(Visited(t), f, u1) && u3 == UsedAfter(t.right, f, u2)
    ensures u3 == UsedAfter(t, f, u0)
  {
    hide Refs, Resolved, Struck, WellFormed, Small;
    var l := Visited(t);
    var d, r0 := DoneNext(t, {}), if t.tok.BackRef? then {Final(f, t.tok.idx)} else {};
    VisitParts(t, {}, {});
    ResolvedParts(t, f);
    ResolvedRefs(t, f);
    VisitedRefs(t, f);
    SmallParts(d, Struck(l), Struck(t.right));
    assert u1 == (u0 - Small(d)) + r0 by { SmallOne(t, u0); }
    UsedSets(f.Keys, u0, Small(d), r0, Small(Struck(l)), Refs(Resolved(l, f)), Small(Struck(t.right)), Refs(Resolved(t.right, f)));
  }

  lemma VisitedRefs(t: Tree, f: map<nat, nat>)
    requires t.Node? && WellFormed(t) && Outermost(f)
    ensures Refs(Resolved(Visited(t), f)) !! f.Keys
  {
    ResolvedRefs(Visited(t), f);
  }

  lemma SmallParts(a: set<nat>, b: set<nat>, c: set<nat>)
    ensures Small(a + b + c) == Small(a) + Small(b) + Small(c)
    ensures Small(a) <= a && Small(b) <= b && Small(c) <= c
  {
  }

  lemma SmallOne(t: Tree, u: set<nat>)
    ensures u - Small(DoneNext(t, {})) == if Outer(t) then WithoutSmall(u, t.left.tok.idx) else u
  {
  }

  lemma ResolvedParts(t: Tree, f: map<nat, nat>)
    requires t.Node?
    ensures Refs(Resolved(t, f)) ==
      (if t.tok.BackRef? then {Final(f, t.tok.idx)} else {}) + Refs(Resolved(Visited(t), f)) + Refs(Resolved(t.right, f))
  {
    RefsOf(Resolved(t, f));
  }

  /** No back-reference names a stripped group any more. */
  lemma {:induction false} ResolvedRefs(t: Tree, f: map<nat, nat>)
    requires WellFormed(t)
    ensures Refs(Resolved(t, f)) == set k | k in Refs(t) :: Final(f, k)
    ensures Outermost(f) ==> forall k | k in Refs(Resolved(t, f)) :: k !in f
    decreases t
  {
    if t.Node? {
      RefsOf(t);
      RefsOf(Resolved(t, f));
      if Outer(t) {
        RefsOf(t.left);
        ResolvedRefs(t.left.left, f);
      } else {
        ResolvedRefs(t.left, f);
      }
      ResolvedRefs(t.right, f);
    }
  }

  /** The pass as a whole: the tree it leaves, subexp_map, and used_bkref_map. */
  lemma {:induction false} RefsResolved(h: Store, t: Tree, parent: int, f: map<nat, nat>, done: set<nat>)
    requires Distinct(t) && TreeAt(h, t, parent) && WellFormed(t) && MapIs(h.subexpMap, f, done) && Outermost(f)
    requires Resolvable(t, f, done, |h.subexpMap|)
    ensures var x := PreVisit(OptimizeSubexps, OptimizeTree, h, t);
      && x.1 == Resolved(t, f) && |x.0.subexpMap| == |h.subexpMap| && MapIs(x.0.subexpMap, f, done + Struck(t))
      && x.0.usedBkref == UsedAfter(t, f, h.usedBkref) && x.0.noSub == h.noSub
    decreases Size(t)
  {
    if t.Node? {
      ResolveCall(h, t, parent, f, done);
      ResolveParts(t, f, done, |h.subexpMap|);
      StruckFollowed(t, f);
      var u1 := OptimizeSubexps(h, t.id).usedBkref;
      assert Resolved(t, f) ==
        Node(t.id, if t.tok.BackRef? then BackRef(Final(f, t.tok.idx)) else t.tok, Resolved(Visited(t), f), Resolved(t.right, f));
      hide Resolvable, Struck, MapIs, TreeAt, Distinct, OptimizeSubexps, OptimizeTree;
      hide LocalCall, SameLinks, UsedAfter, Resolved, Outermost, DoneNext;
      OptimizeCallParts(h, t, parent);
      var t1, h1 := OptimizeTree(h, t), OptimizeSubexps(h, t.id);
      RefsResolved(h1, t1.left, t1.id, f, DoneNext(t, done));
      var l := PreVisit(OptimizeSubexps, OptimizeTree, h1, t1.left);
      OptimizeKeepsRest(h1, t1.left, t1.id, t1.right, t1.id);
      RefsResolved(l.0, t1.right, t1.id, f, DoneNext(t, done) + Struck(t1.left));
      var r := PreVisit(OptimizeSubexps, OptimizeTree, l.0, t1.right);
      UsedJoin(t, f, h.usedBkref, u1, l.0.usedBkref, r.0.usedBkref);
    } else {
      assert done + Struck(t) == done;
      assert UsedAfter(t, f, h.usedBkref) == h.usedBkref;
    }
  }

  lemma {:induction false} StruckFollowed(t: Tree, f: map<nat, nat>)
    requires Follows(t, f)
    ensures forall k | k in Struck(t) :: k in f
    decreases t
  {
    if t.Node? {
      if Outer(t) { StruckFollowed(t.left.left, f); } else { StruckFollowed(t.left, f); }
      StruckFollowed(t.right, f);
    }
  }

  // ----- The parser's trees are such trees -----

  /** The numbers from `n0` up to `n` that are in `struck`. */
  ghost predicate StruckAre(struck: set<nat>, n0: nat, n: nat, of: set<nat>) {
    forall k | n0 <= k < n :: k in struck <==> k in of
  }

  /** When the groups of `all` are stripped, the tree has its back-references in order, and
      what it closes is stripped by then if it is at all. Groups of `all` that are not stripped
      within the tree are stripped before. */
  ghost predicate InOrderAs(t: Tree, all: set<nat>, c0: set<nat>, c: set<nat>, n0: nat, n: nat) {
    && Struck(t) <= all && Remaining(t) !! all
    && forall struck: set<nat>, done: set<nat> | ReadyFor(t, all, c0, n0, n, struck, done) ::
         RefsAfter(t, struck, done) && c * struck <= done + Struck(t)
  }

  ghost predicate ReadyFor(t: Tree, all: set<nat>, c0: set<nat>, n0: nat, n: nat, struck: set<nat>, done: set<nat>) {
    StruckAre(struck, n0, n, all) && c0 * struck <= done && all - Struck(t) <= done
  }

  /** A tree for the part of the pattern in which the groups from `n0` up to `n` are opened:
      its groups are among them, its back-references are to groups in `c0` or to earlier ones
      of its own, and `c` are the groups closed after it. A group at its root may stay or be
      stripped. */
  ghost predicate InOrder(t: Tree, c0: set<nat>, c: set<nat>, n0: nat, n: nat) {
    && n0 <= n && c0 <= c && (forall k | k in c :: k in c0 || n0 <= k < n) && (forall k | k in Groups(t) :: n0 <= k < n)
    && (forall k | k in c :: k <= 8)
    && (forall k | k in Refs(t) :: k <= 8 && (k in c0 || n0 <= k < n))
    && Traced(t) && InOrderAs(t, Struck(t), c0, c, n0, n)
    && (t.Node? && t.tok.Subexp? ==>
          t.tok.idx !in Groups(t.left) && InOrderAs(t.left, {t.tok.idx} + Struck(t.left), c0, c, n0, n))
  }

  // ----- What groups are stripped from -----

  lemma {:induction false} OutersFacts(t: Tree)
    ensures Outers(t).Keys == Struck(t) && forall k | k in Outers(t) :: Outers(t)[k] in Remaining(t)
    decreases t
  {
    if t.Node? {
      if Outer(t) { OutersFacts(t.left.left); } else { OutersFacts(t.left); }
      OutersFacts(t.right);
    }
  }

  /** Only the groups that are stripped in the tree matter. */
  lemma {:induction false} FollowsOn(t: Tree, f: map<nat, nat>, g: map<nat, nat>)
    requires Follows(t, f) && forall k | k in Struck(t) && k in f :: k in g && g[k] == f[k]
    ensures Follows(t, g)
    decreases t
  {
    if t.Node? {
      if Outer(t) { FollowsOn(t.left.left, f, g); } else { FollowsOn(t.left, f, g); }
      FollowsOn(t.right, f, g);
    }
  }

  lemma {:induction false} SameFollows(t: Tree, u: Tree, f: map<nat, nat>)
    requires SameTokens(t, u)
    ensures Outers(u) == Outers(t) && (Follows(t, f) <==> Follows(u, f))
    decreases t
  {
    if t.Node? {
      if Outer(t) { SameFollows(t.left.left, u.left.left, f); } else { SameFollows(t.left, u.left, f); }
      SameFollows(t.right, u.right, f);
    }
  }

  lemma SameTraced(t: Tree, u: Tree)
    requires SameTokens(t, u) && Traced(t)
    ensures Traced(u)
  {
    SameFollows(t, u, Outers(t));
    if t.Node? { SameFollows(t.left, u.left, Outers(t.left)); }
  }

  lemma {:induction false} CopiesFollow(u: Tree, e: Tree, f: map<nat, nat>)
    requires Copies(u, e) && Follows(e, f)
    ensures Outers(u) == Outers(e) && Follows(u, f)
    decreases u
  {
    if SameTokens(e, u) {
      SameFollows(e, u, f);
    } else {
      CopiesFollow(u.left, e, f);
      if u.tok.Concat? { CopiesFollow(u.right, e, f); }
    }
  }

  lemma CopiesTraced(u: Tree, e: Tree)
    requires Copies(u, e) && Traced(e)
    ensures Traced(u)
  {
    if SameTokens(e, u) { SameTraced(e, u); } else { CopiesFollow(u, e, Outers(e)); }
  }

  lemma NullFollows(f: map<nat, nat>)
    ensures Follows(Null, f)
  {
  }

  lemma LeafTraced(t: Tree)
    requires t.Node? && !t.tok.Subexp? && t.left.Null? && t.right.Null?
    ensures Traced(t)
  {
    NullFollows(Outers(t));
  }

  lemma TracedPair(w: Tree)
    requires w.Node? && !w.tok.Subexp? && Traced(w.left) && Traced(w.right) && Struck(w.left) !! Struck(w.right)
    ensures Traced(w)
  {
    OutersFacts(w.left);
    OutersFacts(w.right);
    FollowsOn(w.left, Outers(w.left), Outers(w));
    FollowsOn(w.right, Outers(w.right), Outers(w));
  }

  lemma TracedGroup(w: Tree)
    requires w.Node? && w.tok.Subexp? && w.right.Null? && Traced(w.left)
    requires forall k | k in Groups(w.left) :: w.tok.idx < k
    requires Outer(w) ==> w.left.tok.idx !in Groups(w.left.left)
    ensures Traced(w)
  {
    GroupOuters(w);
    NullFollows(Outers(w));
    if Outer(w) {
      var m, l := w.left.tok.idx, w.left.left;
      InGroups(l);
      OutersFacts(l);
      FollowsOn(l, Outers(l), Outers(w));
      assert m in Outers(w) && Outers(w)[m] == w.tok.idx;
    }
  }

  lemma GroupOuters(w: Tree)
    requires w.Node? && w.tok.Subexp? && w.right.Null?
    ensures Outers(w) == if Outer(w) then map[w.left.tok.idx := w.tok.idx] + Outers(w.left.left) else Outers(w.left)
    ensures Outer(w) ==> w.left.tok.idx in Groups(w.left)
  {
    assert Outers(w.right) == map[];
    if Outer(w) {
      assert Outers(w) == map[w.left.tok.idx := w.tok.idx] + Outers(w.left.left) + Outers(w.right);
    } else {
      assert Outers(w) == Outers(w.left) + Outers(w.right);
    }
  }

  lemma {:induction false} InGroups(t: Tree)
    ensures Struck(t) <= Groups(t) && Remaining(t) <= Groups(t)
    decreases t
  {
    if t.Node? {
      if Outer(t) { InGroups(t.left.left); } else { InGroups(t.left); }
      InGroups(t.right);
      BelowParts(t);
    }
  }

  /** Trees that differ in slots only. */
  lemma {:induction false} SameOrder(t: Tree, u: Tree, struck: set<nat>, done: set<nat>)
    requires SameTokens(t, u)
    ensures Struck(u) == Struck(t) && Remaining(u) == Remaining(t) && Groups(u) == Groups(t) && Refs(u) == Refs(t)
    ensures RefsAfter(t, struck, done) <==> RefsAfter(u, struck, done)
    decreases t
  {
    if t.Node? {
      if Outer(t) {
        SameOrder(t.left.left, u.left.left, struck, done + {t.left.tok.idx});
        SameOrder(t.left, u.left, struck, done);
        SameOrder(t.right, u.right, struck, done + ({t.left.tok.idx} + Struck(t.left.left)));
      } else {
        SameOrder(t.left, u.left, struck, done);
        SameOrder(t.right, u.right, struck, done + Struck(t.left));
      }
    }
  }

  /** More groups stripped before do no harm. */
  lemma {:induction false} RefsAfterMore(t: Tree, struck: set<nat>, done: set<nat>, done': set<nat>)
    requires RefsAfter(t, struck, done) && done <= done'
    ensures RefsAfter(t, struck, done')
    decreases t
  {
    if t.Node? {
      if Outer(t) {
        RefsAfterMore(t.left.left, struck, done + {t.left.tok.idx}, done' + {t.left.tok.idx});
        RefsAfterMore(t.right, struck, done + ({t.left.tok.idx} + Struck(t.left.left)), done' + ({t.left.tok.idx} + Struck(t.left.left)));
      } else {
        RefsAfterMore(t.left, struck, done, done');
        RefsAfterMore(t.right, struck, done + Struck(t.left), done' + Struck(t.left));
      }
    }
  }

  lemma SameInOrderAs(t: Tree, u: Tree, all: set<nat>, c0: set<nat>, c: set<nat>, n0: nat, n: nat)
    requires SameTokens(t, u) && InOrderAs(t, all, c0, c, n0, n)
    ensures InOrderAs(u, all, c0, c, n0, n) && Groups(u) == Groups(t) && Refs(u) == Refs(t) && Struck(u) == Struck(t)
  {
    SameOrder(t, u, {}, {});
    hide Struck, Remaining, RefsAfter, Groups, Refs, SameTokens;
    forall struck: set<nat>, done: set<nat> | ReadyFor(u, all, c0, n0, n, struck, done)
      ensures RefsAfter(u, struck, done) && c * struck <= done + Struck(u)
    {
      assert ReadyFor(t, all, c0, n0, n, struck, done);
      SameOrder(t, u, struck, done);
    }
  }

  lemma SameInOrder(t: Tree, u: Tree, c0: set<nat>, c: set<nat>, n0: nat, n: nat)
    requires SameTokens(t, u) && InOrder(t, c0, c, n0, n)
    ensures InOrder(u, c0, c, n0, n)
  {
    hide InOrderAs, Struck, Groups, Traced;
    SameTraced(t, u);
    SameInOrderAs(t, u, Struck(t), c0, c, n0, n);
    if t.Node? && t.tok.Subexp? { SameInOrderAs(t.left, u.left, {t.tok.idx} + Struck(t.left), c0, c, n0, n); }
  }

  /** Copies of a tree strip and keep what the tree does. */
  lemma {:induction false} CopiesSets(u: Tree, e: Tree)
    requires Copies(u, e)
    ensures Struck(u) == Struck(e) && Remaining(u) == Remaining(e) && Groups(u) == Groups(e) && Refs(u) == Refs(e)
    decreases u
  {
    if SameTokens(e, u) {
      SameOrder(e, u, {}, {});
    } else {
      CopiesSets(u.left, e);
      if u.tok.Concat? { CopiesSets(u.right, e); }
      SetsOf(u);
    }
  }

  lemma SetsOf(u: Tree)
    requires u.Node? && !u.tok.Subexp? && !u.tok.BackRef?
    ensures Struck(u) == Struck(u.left) + Struck(u.right) && Remaining(u) == Remaining(u.left) + Remaining(u.right)
    ensures Groups(u) == Groups(u.left) + Groups(u.right) && Refs(u) == Refs(u.left) + Refs(u.right)
  {
    RefsOf(u);
    GroupsOf(u);
    assert Own(u) == {};
  }

  lemma {:induction false} CopiesOrder(u: Tree, e: Tree, struck: set<nat>, done: set<nat>)
    requires Copies(u, e) && RefsAfter(e, struck, done)
    ensures RefsAfter(u, struck, done)
    decreases u
  {
    if SameTokens(e, u) {
      SameOrder(e, u, struck, done);
    } else {
      CopiesOrder(u.left, e, struck, done);
      if u.tok.Concat? {
        RefsAfterMore(e, struck, done, done + Struck(u.left));
        CopiesOrder(u.right, e, struck, done + Struck(u.left));
      }
    }
  }

  /** The tree of a repetition: nothing, or copies. */
  lemma InOrderCopies(u: Tree, e: Tree, c0: set<nat>, c: set<nat>, n0: nat, n: nat)
    requires InOrder(e, c0, c, n0, n) && (u.Null? || (e.Node? && Copies(u, e)))
    ensures InOrder(u, c0, c, n0, n)
  {
    InGroups(e);
    hide InOrderAs, Traced;
    if u.Node? { CopiesTraced(u, e); }
    if u.Null? {
      InOrderNothing(c0, c, n0, n);
    } else if SameTokens(e, u) {
      SameInOrder(e, u, c0, c, n0, n);
    } else {
      CopiesInOrderAs(u, e, c0, c, n0, n);
    }
  }

  lemma CopiesInOrderAs(u: Tree, e: Tree, c0: set<nat>, c: set<nat>, n0: nat, n: nat)
    requires InOrderAs(e, Struck(e), c0, c, n0, n) && Copies(u, e) && forall k | k in Struck(e) :: n0 <= k < n
    ensures InOrderAs(u, Struck(u), c0, c, n0, n) && Groups(u) == Groups(e) && Refs(u) == Refs(e)
  {
    hide Struck, Remaining, RefsAfter, Groups, Refs, SameTokens, Copies;
    var s := Struck(e);
    CopiesSets(u, e);
    forall struck: set<nat>, done: set<nat> | ReadyFor(u, s, c0, n0, n, struck, done)
      ensures RefsAfter(u, struck, done) && c * struck <= done + Struck(u)
    {
      assert ReadyFor(e, s, c0, n0, n, struck, done);
      CopiesOrder(u, e, struck, done);
    }
  }

  lemma InOrderNothing(c0: set<nat>, c: set<nat>, n0: nat, n: nat)
    requires n0 <= n && c0 <= c && (forall k | k in c :: k in c0 || n0 <= k < n) && (forall k | k in c :: k <= 8)
    ensures InOrder(Null, c0, c, n0, n)
  {
  }

  /** A leaf; a back-reference must be to a group closed before. */
  lemma InOrderLeaf(id: nat, tok: Token, c: set<nat>, n: nat)
    requires !tok.Subexp? && (tok.BackRef? ==> tok.idx in c) && (forall k | k in c :: k <= 8)
    ensures InOrder(Node(id, tok, Null, Null), c, c, n, n)
  {
    var t := Node(id, tok, Null, Null);
    LeafInOrderAs(t, c, n);
    LeafTraced(t);
    hide InOrderAs, Traced;
    RefsOf(t);
    GroupsOf(t);
  }

  lemma LeafInOrderAs(t: Tree, c: set<nat>, n: nat)
    requires t.Node? && !t.tok.Subexp? && t.left.Null? && t.right.Null? && (t.tok.BackRef? ==> t.tok.idx in c)
    ensures InOrderAs(t, Struck(t), c, c, n, n)
  {
    assert Own(t) == {} && Struck(Null) == Remaining(Null) == {};
    assert Struck(t) == {} && Remaining(t) == {};
  }

  /** One part after another, in one branch or as alternatives; `c1` are the groups that
      count as closed for the second. */
  lemma InOrderPair(id: nat, tok: Token, t: Tree, u: Tree, c0: set<nat>, ct: set<nat>, cu0: set<nat>, cu: set<nat>,
                    n0: nat, n1: nat, n: nat)
    requires tok.Concat? || tok.Alt?
    requires InOrder(t, c0, ct, n0, n1) && InOrder(u, cu0, cu, n1, n) && (cu0 == ct || cu0 == c0)
    ensures InOrder(Node(id, tok, t, u), c0, ct + cu, n0, n)
  {
    PairSets(id, tok, t, u);
    InGroups(t);
    InGroups(u);
    PairInOrderAs(Node(id, tok, t, u), c0, ct, cu0, cu, n0, n1, n);
    TracedPair(Node(id, tok, t, u));
    hide InOrderAs, Struck, Remaining, Groups, Refs, Traced;
  }

  lemma PairSets(id: nat, tok: Token, t: Tree, u: Tree)
    requires tok.Concat? || tok.Alt?
    ensures var w := Node(id, tok, t, u);
      && Struck(w) == Struck(t) + Struck(u) && Remaining(w) == Remaining(t) + Remaining(u)
      && Groups(w) == Groups(t) + Groups(u) && Refs(w) == Refs(t) + Refs(u)
  {
    var w := Node(id, tok, t, u);
    RefsOf(w);
    GroupsOf(w);
    assert Own(w) == {};
  }

  lemma PairInOrderAs(w: Tree, c0: set<nat>, ct: set<nat>, cu0: set<nat>, cu: set<nat>, n0: nat, n1: nat, n: nat)
    requires w.Node? && (w.tok.Concat? || w.tok.Alt?) && n0 <= n1 <= n && (cu0 == ct || cu0 == c0)
    requires InOrderAs(w.left, Struck(w.left), c0, ct, n0, n1) && InOrderAs(w.right, Struck(w.right), cu0, cu, n1, n)
    requires Within(Struck(w.left), n0, n1) && Within(Remaining(w.left), n0, n1)
    requires Within(Struck(w.right), n1, n) && Within(Remaining(w.right), n1, n)
    ensures InOrderAs(w, Struck(w), c0, ct + cu, n0, n)
  {
    hide Struck, Remaining, RefsAfter;
    var t, u := w.left, w.right;
    PairSets(w.id, w.tok, t, u);
    forall struck: set<nat>, done: set<nat> | ReadyFor(w, Struck(w), c0, n0, n, struck, done)
      ensures RefsAfter(w, struck, done) && (ct + cu) * struck <= done + Struck(w)
    {
      PairRefs(w, struck, done);
      PairStruck(struck, Struck(t), Struck(u), n0, n1, n);
      assert ReadyFor(t, Struck(t), c0, n0, n1, struck, done);
      assert ReadyFor(u, Struck(u), cu0, n1, n, struck, done + Struck(t));
      assert ct * struck <= done + Struck(t) && cu * struck <= done + Struck(t) + Struck(u);
      assert (ct + cu) * struck == ct * struck + cu * struck;
    }
  }

  ghost predicate Within(s: set<nat>, n0: nat, n: nat) { forall k | k in s :: n0 <= k < n }

  lemma PairStruck(struck: set<nat>, a: set<nat>, b: set<nat>, n0: nat, n1: nat, n: nat)
    requires StruckAre(struck, n0, n, a + b) && n0 <= n1 <= n
    requires Within(a, n0, n1) && Within(b, n1, n)
    ensures StruckAre(struck, n0, n1, a) && StruckAre(struck, n1, n, b)
  {
  }

  lemma PairRefs(w: Tree, struck: set<nat>, done: set<nat>)
    requires w.Node? && (w.tok.Concat? || w.tok.Alt?)
    ensures RefsAfter(w, struck, done) <==> RefsAfter(w.left, struck, done) && RefsAfter(w.right, struck, done + Struck(w.left))
  {
  }

  /** When one of the parts has no tree, the other is the whole. */
  lemma InOrderAlone(t: Tree, u: Tree, c0: set<nat>, c1: set<nat>, c: set<nat>, n0: nat, n1: nat, n: nat)
    requires InOrder(t, c0, c1, n0, n1) && InOrder(u, c1, c, n1, n)
    ensures t.Null? ==> InOrder(u, c0, c, n0, n)
    ensures u.Null? ==> InOrder(t, c0, c, n0, n)
  {
    InGroups(t);
    InGroups(u);
    if t.Null? {
      AloneAfter(u, Struck(u), c0, c1, c, n0, n1, n);
      if u.Node? && u.tok.Subexp? {
        InGroups(u.left);
        GroupsOf(u);
        AloneAfter(u.left, {u.tok.idx} + Struck(u.left), c0, c1, c, n0, n1, n);
      }
    }
    if u.Null? {
      AloneBefore(t, Struck(t), c0, c1, c, n0, n1, n);
      if t.Node? && t.tok.Subexp? {
        InGroups(t.left);
        GroupsOf(t);
        AloneBefore(t.left, {t.tok.idx} + Struck(t.left), c0, c1, c, n0, n1, n);
      }
    }
    hide Struck, Remaining, InOrderAs, Groups, Refs;
  }

  /** Of the part before it nothing is left. */
  lemma AloneAfter(u: Tree, all: set<nat>, c0: set<nat>, c1: set<nat>, c: set<nat>, n0: nat, n1: nat, n: nat)
    requires InOrderAs(u, all, c1, c, n1, n) && n0 <= n1 <= n && forall k | k in c1 :: k in c0 || n0 <= k < n1
    requires forall k | k in all :: n1 <= k < n
    ensures InOrderAs(u, all, c0, c, n0, n)
  {
    hide Struck, Remaining, RefsAfter;
    forall struck: set<nat>, done: set<nat> | ReadyFor(u, all, c0, n0, n, struck, done)
      ensures RefsAfter(u, struck, done) && c * struck <= done + Struck(u)
    {
      assert c1 * struck <= done;
      assert ReadyFor(u, all, c1, n1, n, struck, done);
    }
  }

  /** Of the part after it nothing is left. */
  lemma AloneBefore(t: Tree, all: set<nat>, c0: set<nat>, c1: set<nat>, c: set<nat>, n0: nat, n1: nat, n: nat)
    requires InOrderAs(t, all, c0, c1, n0, n1) && n0 <= n1 <= n && forall k | k in c :: k in c1 || n1 <= k < n
    requires forall k | k in all :: n0 <= k < n1
    ensures InOrderAs(t, all, c0, c, n0, n)
  {
    hide Struck, Remaining, RefsAfter;
    forall struck: set<nat>, done: set<nat> | ReadyFor(t, all, c0, n0, n, struck, done)
      ensures RefsAfter(t, struck, done) && c * struck <= done + Struck(t)
    {
      assert ReadyFor(t, all, c0, n0, n1, struck, done);
    }
  }

  /** A group around a tree. */
  lemma InOrderGroup(id: nat, t: Tree, c0: set<nat>, c: set<nat>, n0: nat, n: nat)
    requires InOrder(t, c0, c, n0 + 1, n)
    ensures InOrder(Node(id, Subexp(n0), t, Null), c0, if n0 <= 8 then c + {n0} else c, n0, n)
  {
    hide InOrderAs, Traced, Struck, Remaining;
    var w, c' := Node(id, Subexp(n0), t, Null), if n0 <= 8 then c + {n0} else c;
    RefsOf(w);
    GroupsOf(w);
    if Outer(w) { NestedInOrderAs(w, c0, c, c', n0, n); } else { PlainInOrderAs(w, c0, c, c', n0, n); }
    StruckInOrderAs(t, c0, c, c', n0, n);
    TracedGroup(w);
    hide Groups, Refs;
  }

  lemma GroupSets(w: Tree)
    requires w.Node? && w.tok.Subexp? && w.right.Null?
    ensures Outer(w) ==> Struck(w) == {w.left.tok.idx} + Struck(w.left.left) && Remaining(w) == {w.tok.idx} + Remaining(w.left.left)
    ensures !Outer(w) ==> Struck(w) == Struck(w.left) && Remaining(w) == {w.tok.idx} + Remaining(w.left)
  {
    assert Struck(w.right) == {} && Remaining(w.right) == {};
    assert Own(w) == {w.tok.idx};
    if Outer(w) {
      assert Struck(w) == {w.left.tok.idx} + Struck(w.left.left) + Struck(w.right);
      assert Remaining(w) == {w.tok.idx} + Remaining(w.left.left) + Remaining(w.right);
    } else {
      assert Struck(w) == Struck(w.left) + Struck(w.right);
      assert Remaining(w) == Own(w) + Remaining(w.left) + Remaining(w.right);
    }
  }

  lemma PlainInOrderAs(w: Tree, c0: set<nat>, c: set<nat>, c': set<nat>, n0: nat, n: nat)
    requires w.Node? && w.tok == Subexp(n0) && w.right.Null? && !Outer(w) && InOrder(w.left, c0, c, n0 + 1, n) && c' <= c + {n0}
    ensures InOrderAs(w, Struck(w), c0, c', n0, n)
  {
    InGroups(w.left);
    GroupSets(w);
    forall struck: set<nat>, done: set<nat> | ReadyFor(w, Struck(w), c0, n0, n, struck, done)
      ensures RefsAfter(w, struck, done) && c' * struck <= done + Struck(w)
    {
      assert ReadyFor(w.left, Struck(w.left), c0, n0 + 1, n, struck, done);
    }
  }

  lemma NestedInOrderAs(w: Tree, c0: set<nat>, c: set<nat>, c': set<nat>, n0: nat, n: nat)
    requires w.Node? && w.tok == Subexp(n0) && w.right.Null? && Outer(w) && InOrder(w.left, c0, c, n0 + 1, n) && c' <= c + {n0}
    ensures InOrderAs(w, Struck(w), c0, c', n0, n)
  {
    var m, l := w.left.tok.idx, w.left.left;
    InGroups(l);
    GroupsOf(w.left);
    GroupSets(w);
    forall struck: set<nat>, done: set<nat> | ReadyFor(w, Struck(w), c0, n0, n, struck, done)
      ensures RefsAfter(w, struck, done) && c' * struck <= done + Struck(w)
    {
      assert ReadyFor(l, {m} + Struck(l), c0, n0 + 1, n, struck, done + {m});
    }
  }

  lemma StruckInOrderAs(t: Tree, c0: set<nat>, c: set<nat>, c': set<nat>, n0: nat, n: nat)
    requires InOrder(t, c0, c, n0 + 1, n) && c' <= c + {n0}
    ensures InOrderAs(t, {n0} + Struck(t), c0, c', n0, n)
  {
    InGroups(t);
    forall struck: set<nat>, done: set<nat> | ReadyFor(t, {n0} + Struck(t), c0, n0, n, struck, done)
      ensures RefsAfter(t, struck, done) && c' * struck <= done + Struck(t)
    {
      assert n0 in done by { assert n0 in {n0} + Struck(t) - Struck(t); }
      assert ReadyFor(t, Struck(t), c0, n0 + 1, n, struck, done);
    }
  }

  // ----- Which groups keep their OPEN and CLOSE -----

  /** optimize_subexps on a whole tree of the parser. */
  lemma GroupsResolved(h: Store, t: Tree, c: set<nat>, n: nat)
    requires t.Node? && Distinct(t) && TreeAt(h, t, -1) && WellFormed(t) && InOrder(t, {}, c, 0, n)
    requires Identity(h.subexpMap) && n <= |h.subexpMap|
    ensures var x := PreVisit(OptimizeSubexps, OptimizeTree, h, t); var f := Outers(t);
      && x.1 == Resolved(t, f) && |x.0.subexpMap| == |h.subexpMap| && (forall k | 0 <= k < |h.subexpMap| :: x.0.subexpMap[k] == Final(f, k))
      && x.0.usedBkref == UsedAfter(t, f, h.usedBkref) && x.0.noSub == h.noSub
  {
    var f := Outers(t);
    var s := Struck(t);
    InGroups(t);
    OutersFacts(t);
    assert ReadyFor(t, s, {}, 0, n, s, {});
    assert RefsAfter(t, s, {});
    hide ReadyFor, Struck, Remaining, RefsAfter, Outers, Resolved, UsedAfter;
    RefsResolved(h, t, -1, f, {});
  }

  /** Every group of the tree stays or is stripped from one that stays. */
  lemma {:induction false} StaysOrStruck(t: Tree)
    requires WellFormed(t)
    ensures Groups(t) == Struck(t) + Remaining(t)
    decreases t
  {
    if t.Node? {
      GroupsOf(t);
      VisitParts(t, {}, {});
      if Outer(t) { GroupsOf(t.left); StaysOrStruck(t.left.left); } else { StaysOrStruck(t.left); }
      StaysOrStruck(t.right);
    }
  }

  lemma {:induction false} ResolvedGroups(t: Tree, f: map<nat, nat>)
    requires WellFormed(t)
    ensures Groups(Resolved(t, f)) == Remaining(t)
    decreases t
  {
    if t.Node? {
      GroupsOf(Resolved(t, f));
      if Outer(t) { ResolvedGroups(t.left.left, f); } else { ResolvedGroups(t.left, f); }
      ResolvedGroups(t.right, f);
    }
  }

  /** The groups that lower_subexps gives an OPEN and a CLOSE: with no_sub only those that are
      empty somewhere or used by a back-reference. */
  ghost function Marked(noSub: bool, used: set<nat>, t: Tree): set<nat> {
    if t.Null? then {}
    else
      (if t.tok.Subexp? && (!noSub || t.left.Null? || (t.tok.idx < BITSET_WORD_BITS && t.tok.idx in used)) then {t.tok.idx} else {})
      + Marked(noSub, used, t.left) + Marked(noSub, used, t.right)
  }

  lemma {:induction false} MarkedGroups(noSub: bool, used: set<nat>, t: Tree)
    ensures Marked(noSub, used, t) <= Groups(t) && (!noSub ==> Marked(noSub, used, t) == Groups(t))
    ensures forall k | k in Groups(t) && k in used && k < BITSET_WORD_BITS :: k in Marked(noSub, used, t)
  {
    if t.Node? {
      GroupsOf(t);
      MarkedGroups(noSub, used, t.left);
      MarkedGroups(noSub, used, t.right);
    }
  }

  lemma {:induction false} MarkedBrackets(h: Store, t: Tree, k: nat)
    requires NoBrackets(t) && WellFormed(t)
    ensures OpenSubexp(k) in KeptBrackets(h, t) <==> k in Marked(h.noSub, h.usedBkref, t)
    ensures CloseSubexp(k) in KeptBrackets(h, t) <==> k in Marked(h.noSub, h.usedBkref, t)
  {
    if t.Node? {
      MarkedBrackets(h, t.left, k);
      MarkedBrackets(h, t.right, k);
    }
  }

  /** Lowering leaves the back-references as they are. */
  lemma {:induction false} LowerRefs(h: Store, t: Tree)
    requires WellFormed(t)
    ensures Refs(PostVisit(LowerSubexps, LowerTree, h, t).1) == Refs(t)
    decreases t
  {
    hide LowerSubexps, LowerLeft, LowerGroup, LowerTree, PostVisit, WellFormed;
    LowerVisit(h, t);
    if t.Node? {
      var l := PostVisit(LowerSubexps, LowerTree, h, t.left);
      var r := PostVisit(LowerSubexps, LowerTree, l.0, t.right);
      LowerRefs(h, t.left);
      LowerRefs(l.0, t.right);
      LowerBrackets(h, t.left);
      LowerBrackets(l.0, t.right);
      LowerGroupRefs(r.0, l.1);
      LowerGroupRefs(LowerLeft(r.0, t.id), r.1);
      RefsOf(t);
      RefsOf(PostVisit(LowerSubexps, LowerTree, h, t).1);
    }
  }

  lemma LowerGroupRefs(h: Store, g: Tree)
    requires WellFormed(g)
    ensures Refs(LowerGroup(h, g)) == Refs(g)
  {
    if g.Node? && g.tok.Subexp? {
      RefsOf(g);
      var u := LowerGroup(h, g);
      if !Droppable(h, Ptr(g.left), g.tok.idx) {
        RefsOf(u);
        RefsOf(u.left);
        RefsOf(u.right);
        if g.left.Node? { RefsOf(u.right.right); }
      }
    }
  }

  /** What the two passes make of the groups: which have an OPEN and a CLOSE in `u`, which
      numbers the back-references have, and where subexp_map sends the groups. */
  ghost predicate GroupsMarked(t: Tree, u: Tree, noSub: bool, used: set<nat>) {
    var f := Outers(t);
    && (forall k | k in Refs(u) :: exists r :: r in Refs(t) && k == Final(f, r))
    && (forall r | r in Refs(t) :: Final(f, r) in Refs(u))
    && forall k: nat ::
         && (OpenSubexp(k) in Brackets(u) <==> k in Marked(noSub, UsedAfter(t, f, used), Resolved(t, f)))
         && (CloseSubexp(k) in Brackets(u) <==> k in Marked(noSub, UsedAfter(t, f, used), Resolved(t, f)))
  }

  lemma {:induction false} ResolvedNoBrackets(t: Tree, f: map<nat, nat>)
    requires NoBrackets(t)
    ensures NoBrackets(Resolved(t, f))
    decreases t
  {
    if t.Node? {
      if Outer(t) { ResolvedNoBrackets(t.left.left, f); } else { ResolvedNoBrackets(t.left, f); }
      ResolvedNoBrackets(t.right, f);
    }
  }

  lemma PassesMark(h: Store, t: Tree, c: set<nat>, n: nat)
    requires t.Node? && !t.tok.Subexp? && Distinct(t) && TreeAt(h, t, -1) && WellFormed(t) && InOrder(t, {}, c, 0, n)
    requires Identity(h.subexpMap) && n <= |h.subexpMap| && NoBrackets(t)
    ensures var x := PreVisit(OptimizeSubexps, OptimizeTree, h, t);
      GroupsMarked(t, PostVisit(LowerSubexps, LowerTree, x.0, x.1).1, h.noSub, h.usedBkref)
  {
    hide InOrder, TreeAt, Distinct, Outers, UsedAfter;
    GroupsResolved(h, t, c, n);
    var f := Outers(t);
    var x := PreVisit(OptimizeSubexps, OptimizeTree, h, t);
    OptimizeWellFormed(h, t);
    ResolvedRefs(t, f);
    ResolvedNoBrackets(t, f);
    LowerBrackets(x.0, x.1);
    LowerRefs(x.0, x.1);
    hide Resolved, Refs, Brackets, KeptBrackets, Marked, NoBrackets;
    forall k: nat { MarkedBrackets(x.0, x.1, k); }
  }

  /** A back-reference ends up with a group that has its OPEN and CLOSE exactly if the group it
      named is in the tree. Without no_sub every group of the tree has them, under the number
      that subexp_map gives it, and no other group does. */
  ghost predicate RefsMarked(t: Tree, noSub: bool, used: set<nat>) {
    var f := Outers(t);
    var marked := Marked(noSub, UsedAfter(t, f, used), Resolved(t, f));
    && (forall r | r in Refs(t) :: Final(f, r) in marked <==> r in Groups(t))
    && (forall k | k in marked :: k in Groups(t) && Final(f, k) == k)
    && (!noSub ==> forall k | k in Groups(t) :: Final(f, k) in marked)
  }

  lemma RefsKeepBrackets(t: Tree, noSub: bool, used: set<nat>, c: set<nat>, n: nat)
    requires WellFormed(t) && InOrder(t, {}, c, 0, n)
    ensures RefsMarked(t, noSub, used)
  {
    hide Groups, Refs, Struck, Remaining, Marked, Resolved, Outers, UsedAfter, WellFormed, Follows;
    var f := Outers(t);
    FinalGroups(t);
    MarkedGroups(noSub, UsedAfter(t, f, used), Resolved(t, f));
    forall r | r in Refs(t) ensures Final(f, r) in Marked(noSub, UsedAfter(t, f, used), Resolved(t, f)) <==> r in Groups(t) {
      FinalMarked(t, noSub, used, r);
    }
  }

  lemma FinalGroups(t: Tree)
    requires WellFormed(t) && Remaining(t) !! Struck(t)
    ensures var f := Outers(t); var g := Groups(Resolved(t, f));
      && (forall k: nat :: Final(f, k) in g <==> k in Groups(t))
      && forall k | k in g :: k in Groups(t) && k !in f
  {
    var f := Outers(t);
    OutersFacts(t);
    StaysOrStruck(t);
    ResolvedGroups(t, f);
    hide Groups, Struck, Remaining, Resolved, Outers, WellFormed;
  }

  lemma FinalMarked(t: Tree, noSub: bool, used: set<nat>, r: nat)
    requires WellFormed(t) && Follows(t, Outers(t)) && Remaining(t) !! Struck(t) && RefsBelow(t, 9) && r in Refs(t)
    ensures var f := Outers(t); Final(f, r) in Marked(noSub, UsedAfter(t, f, used), Resolved(t, f)) <==> r in Groups(t)
  {
    var f := Outers(t);
    FinalGroups(t);
    FinalSmall(t, f, r);
    ResolvedRefs(t, f);
    assert Final(f, r) in Refs(Resolved(t, f));
    MarkedGroups(noSub, UsedAfter(t, f, used), Resolved(t, f));
    hide Groups, Refs, Marked, Resolved, Outers, WellFormed, Follows;
  }

  /** Back-references stay within the word. */
  lemma FinalSmall(t: Tree, f: map<nat, nat>, r: nat)
    requires r in Refs(t) && RefsBelow(t, 9) && f == Outers(t) && Follows(t, f)
    ensures Final(f, r) < BITSET_WORD_BITS
  {
    if r in f {
      OutersFacts(t);
      OutersLess(t, f, r);
    }
  }

  lemma {:induction false} OutersLess(t: Tree, f: map<nat, nat>, k: nat)
    requires Follows(t, f) && k in Struck(t)
    ensures k in f && f[k] < k
    decreases t
  {
    if t.Node? {
      if Outer(t) && k == t.left.tok.idx {
      } else if k in Struck(t.right) {
        OutersLess(t.right, f, k);
      } else if Outer(t) {
        OutersLess(t.left.left, f, k);
      } else {
        OutersLess(t.left, f, k);
      }
    }
  }

  // ----- Trees that differ in slots only, after the pass -----

  lemma {:induction false} SameResolved(t: Tree, u: Tree, f: map<nat, nat>)
    requires SameTokens(t, u)
    ensures SameTokens(Resolved(t, f), Resolved(u, f))
    decreases t
  {
    if t.Node? {
      if Outer(t) { SameResolved(t.left.left, u.left.left, f); } else { SameResolved(t.left, u.left, f); }
      SameResolved(t.right, u.right, f);
    }
  }

  lemma {:induction false} SameMarked(noSub: bool, used: set<nat>, t: Tree, u: Tree)
    requires SameTokens(t, u)
    ensures Marked(noSub, used, t) == Marked(noSub, used, u)
  {
    if t.Node? { SameMarked(noSub, used, t.left, u.left); SameMarked(noSub, used, t.right, u.right); }
  }

  lemma SameMarks(t: Tree, u: Tree, noSub: bool, used: set<nat>)
    requires SameTokens(t, u)
    ensures var f := Outers(t);
      && Outers(u) == f && Refs(u) == Refs(t) && Groups(u) == Groups(t)
      && Marked(noSub, UsedAfter(u, f, used), Resolved(u, f)) == Marked(noSub, UsedAfter(t, f, used), Resolved(t, f))
  {
    var f := Outers(t);
    SameFollows(t, u, f);
    SameOrder(t, u, {}, {});
    SameResolved(t, u, f);
    SameOrder(Resolved(t, f), Resolved(u, f), {}, {});
    SameMarked(noSub, UsedAfter(t, f, used), Resolved(t, f), Resolved(u, f));
  }

  /** A group is stripped from one that it is nested in directly. */
  lemma {:induction false} OutersNest(t: Tree, c: iset<nat>)
    requires ClosedUnderNesting(t, c)
    ensures forall k | k in Outers(t) :: k in c <==> Outers(t)[k] in c
    decreases t
  {
    if t.Node? {
      if Outer(t) { OutersNest(t.left.left, c); } else { OutersNest(t.left, c); }
      OutersNest(t.right, c);
    }
  }

  lemma OptimizeWellFormed(h: Store, t: Tree)
    requires t.Node? && !t.tok.Subexp? && Distinct(t) && TreeAt(h, t, -1) && WellFormed(t) && Identity(h.subexpMap)
    ensures var u := PreVisit(OptimizeSubexps, OptimizeTree, h, t).1; WellFormed(u) && u.Node? && !u.tok.Subexp?
  {
    var m: Matcher := (tok: Token, i, j) => false;
    NoneAgrees(m, t);
    OptimizePreserves(m, h, t, -1);
    OptimizeCall(h, t, -1);
  }
}
