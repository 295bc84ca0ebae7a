/** The automaton that analyze builds matches exactly what the pattern tree matches. */
module NfaLanguage {
  import opened RegexTree
  import opened NfaPasses

  /** In at most `steps` moves, from node `i` at subject position `p`, the automaton reaches
      an END_OF_RE node at position `q`. Epsilon nodes move along `edests`, consuming nodes
      along `nexts` over a span the matcher allows. */
  ghost predicate Run(n: Nfa, m: Matcher, i: int, p: nat, q: nat, steps: nat)
    decreases steps
  {
    && p <= q && 0 <= i < |n.nodes| && i < |n.nexts| && i < |n.edests|
    && if n.nodes[i].EndOfRe? then p == q
       else if IsEpsilonNode(n.nodes[i]) then
         steps > 0 && exists e | e in n.edests[i] :: Run(n, m, e, p, q, steps - 1)
       else
         steps > 0 && IsConsuming(n.nodes[i]) &&
         exists r: nat | p <= r <= q :: m(n.nodes[i], p, r) && Run(n, m, n.nexts[i], r, q, steps - 1)
  }

  ghost predicate Accepts(n: Nfa, m: Matcher, i: int, p: nat, q: nat) {
    exists steps: nat :: Run(n, m, i, p, q, steps)
  }

  /** No END_OF_RE and no group inside: the part of the pattern before the end marker. */
  ghost predicate Inner(t: Tree) {
    t.Node? ==> !t.tok.EndOfRe? && !t.tok.Subexp? && Inner(t.left) && Inner(t.right)
  }

  lemma InitTwoMember(a: int, b: int)
    ensures a in InitTwo(a, b) && b in InitTwo(a, b)
    ensures forall e | e in InitTwo(a, b) :: e == a || e == b
  {
  }

  // ----- One move at a time -----

  lemma EpsilonMove(n: Nfa, m: Matcher, i: int, p: nat, q: nat, steps: nat) returns (e: int)
    requires 0 <= i < |n.nodes| && IsEpsilonNode(n.nodes[i]) && Run(n, m, i, p, q, steps)
    ensures i < |n.edests| && e in n.edests[i] && steps > 0 && p <= q && Run(n, m, e, p, q, steps - 1)
  {
    e :| e in n.edests[i] && Run(n, m, e, p, q, steps - 1);
  }

  lemma BeforeEpsilon(n: Nfa, m: Matcher, i: int, e: int, p: nat, q: nat, steps: nat)
    requires 0 <= i < |n.nodes| && i < |n.nexts| && i < |n.edests| && IsEpsilonNode(n.nodes[i])
    requires e in n.edests[i] && p <= q && Run(n, m, e, p, q, steps)
    ensures Run(n, m, i, p, q, steps + 1)
  {
  }

  lemma ConsumingMove(n: Nfa, m: Matcher, i: int, p: nat, q: nat, steps: nat) returns (r: nat)
    requires 0 <= i < |n.nodes| && IsConsuming(n.nodes[i]) && Run(n, m, i, p, q, steps)
    ensures i < |n.nexts| && p <= r <= q && m(n.nodes[i], p, r) && steps > 0 && Run(n, m, n.nexts[i], r, q, steps - 1)
  {
    r :| p <= r <= q && m(n.nodes[i], p, r) && Run(n, m, n.nexts[i], r, q, steps - 1);
  }

  lemma BeforeConsuming(n: Nfa, m: Matcher, i: int, p: nat, r: nat, q: nat, steps: nat)
    requires 0 <= i < |n.nodes| && i < |n.nexts| && i < |n.edests| && IsConsuming(n.nodes[i])
    requires p <= r <= q && m(n.nodes[i], p, r) && Run(n, m, n.nexts[i], r, q, steps)
    ensures Run(n, m, i, p, q, steps + 1)
  {
  }

  /** What `Linked` says at the root of the tree. */
  lemma LinkedRoot(n: Nfa, t: Tree, a: nat, nxi: int)
    requires t.Node? && WellFormed(t) && Inner(t) && Linked(n, t, a, nxi)
    ensures WellFormed(t.left) && WellFormed(t.right) && Inner(t.left) && Inner(t.right)
    ensures t.tok.Concat? ==>
      && t.left.Node? && t.right.Node? && Idx(t, a) == Idx(t.left, a)
      && Linked(n, t.left, a, Idx(t.right, a + Count(t.left))) && Linked(n, t.right, a + Count(t.left), nxi)
    ensures !t.tok.Concat? ==>
      && Idx(t, a) < |n.nodes| == |n.nexts| == |n.edests| && n.nodes[Idx(t, a)] == t.tok
      && (IsEpsilonNode(t.tok) || IsConsuming(t.tok))
    ensures t.tok.DupAsterisk? ==>
      t.left.Node? && n.edests[Idx(t, a)] == InitTwo(Idx(t.left, a), nxi) && Linked(n, t.left, a, Idx(t, a))
    ensures t.tok.Alt? ==>
      && n.edests[Idx(t, a)] == InitTwo(Start(t.left, a, nxi), Start(t.right, a + Count(t.left), nxi))
      && Linked(n, t.left, a, nxi) && Linked(n, t.right, a + Count(t.left), nxi)
    ensures t.tok.OpenSubexp? || t.tok.CloseSubexp? ==> n.edests[Idx(t, a)] == [nxi]
    ensures IsConsuming(t.tok) ==> n.nexts[Idx(t, a)] == nxi
    ensures t.right.Null? || t.tok.Concat? || t.tok.Alt?
    ensures t.left.Null? || t.tok.Concat? || t.tok.Alt? || t.tok.DupAsterisk?
  {
  }

  lemma MatchMore(m: Matcher, t: Tree, p: nat, k: nat, r: nat)
    requires t.Node? && t.tok.DupAsterisk? && p <= k <= r && Matches(m, t.left, p, k) && Matches(m, t, k, r)
    ensures Matches(m, t, p, r)
  {
  }

  lemma MatchLeaf(m: Matcher, t: Tree, p: nat, r: nat)
    ensures t.Null? || (t.Node? && (t.tok.OpenSubexp? || t.tok.CloseSubexp? || t.tok.DupAsterisk?)) ==> Matches(m, t, p, p)
    ensures t.Node? && IsConsuming(t.tok) && p <= r ==> (Matches(m, t, p, r) <==> m(t.tok, p, r))
    ensures t.Node? && t.tok.Alt? && p <= r ==> (Matches(m, t, p, r) <==> Matches(m, t.left, p, r) || Matches(m, t.right, p, r))
    ensures t.Null? || (t.Node? && (t.tok.OpenSubexp? || t.tok.CloseSubexp?)) ==> (Matches(m, t, p, r) ==> p == r)
  {
  }

  /** A run that enters the automaton of a tree matches the tree on some span and then
      continues at the tree's continuation with fewer moves. */
  lemma {:induction false} RunMatches(n: Nfa, m: Matcher, t: Tree, a: nat, nxi: int, p: nat, q: nat, steps: nat)
      returns (r: nat, rest: nat)
    requires t.Node? && WellFormed(t) && Inner(t) && Linked(n, t, a, nxi) && Run(n, m, Idx(t, a), p, q, steps)
    ensures p <= r <= q && Matches(m, t, p, r) && rest < steps && Run(n, m, nxi, r, q, rest)
    decreases steps, t, 1
  {
    hide Run, Linked, Matches, WellFormed, Inner, InitTwo;
    var i := Idx(t, a);
    LinkedRoot(n, t, a, nxi);
    if t.tok.Concat? {
      var r1, s1 := RunMatches(n, m, t.left, a, Idx(t.right, a + Count(t.left)), p, q, steps);
      r, rest := RunMatches(n, m, t.right, a + Count(t.left), nxi, r1, q, s1);
      MatchConcat(m, t, p, r1, r);
    } else if IsConsuming(t.tok) {
      r := ConsumingMove(n, m, i, p, q, steps);
      rest := steps - 1;
      MatchLeaf(m, t, p, r);
    } else {
      var e := EpsilonMove(n, m, i, p, q, steps);
      MatchLeaf(m, t, p, p);
      if t.tok.DupAsterisk? {
        InitTwoMember(Idx(t.left, a), nxi);
        if e == nxi {
          r, rest := p, steps - 1;
        } else {
          var r1, s1 := RunMatches(n, m, t.left, a, i, p, q, steps - 1);
          r, rest := RunMatches(n, m, t, a, nxi, r1, q, s1);
          MatchMore(m, t, p, r1, r);
        }
      } else if t.tok.Alt? {
        InitTwoMember(Start(t.left, a, nxi), Start(t.right, a + Count(t.left), nxi));
        if e == Start(t.left, a, nxi) {
          r, rest := RunMatchesChild(n, m, t.left, a, nxi, p, q, steps - 1);
        } else {
          r, rest := RunMatchesChild(n, m, t.right, a + Count(t.left), nxi, p, q, steps - 1);
        }
        MatchLeaf(m, t, p, r);
      } else {
        r, rest := p, steps - 1;
      }
    }
  }

  /** The same for a branch of an alternative, which may be empty. */
  lemma RunMatchesChild(n: Nfa, m: Matcher, t: Tree, a: nat, nxi: int, p: nat, q: nat, steps: nat)
      returns (r: nat, rest: nat)
    requires WellFormed(t) && Inner(t) && Linked(n, t, a, nxi) && p <= q && Run(n, m, Start(t, a, nxi), p, q, steps)
    ensures p <= r <= q && Matches(m, t, p, r) && rest <= steps && Run(n, m, nxi, r, q, rest)
    decreases steps, t, 2
  {
    hide Run, Linked, Matches, WellFormed, Inner;
    if t.Null? {
      r, rest := p, steps;
      MatchLeaf(m, t, p, p);
    } else {
      r, rest := RunMatches(n, m, t, a, nxi, p, q, steps);
    }
  }

  /** A match of the tree followed by a run from its continuation is a run from its start. */
  lemma {:induction false} MatchRuns(n: Nfa, m: Matcher, t: Tree, a: nat, nxi: int, p: nat, r: nat, q: nat, rest: nat)
      returns (steps: nat)
    requires WellFormed(t) && Inner(t) && Linked(n, t, a, nxi)
    requires p <= r <= q && Matches(m, t, p, r) && Run(n, m, nxi, r, q, rest)
    ensures Run(n, m, Start(t, a, nxi), p, q, steps)
    decreases t, r - p
  {
    hide Run, Linked, WellFormed, Inner, InitTwo;
    MatchLeaf(m, t, p, r);
    if t.Null? { return rest; }
    var i := Idx(t, a);
    LinkedRoot(n, t, a, nxi);
    if t.tok.Concat? {
      var k: nat :| p <= k <= r && Matches(m, t.left, p, k) && Matches(m, t.right, k, r);
      hide Matches;
      var s1 := MatchRuns(n, m, t.right, a + Count(t.left), nxi, k, r, q, rest);
      steps := MatchRuns(n, m, t.left, a, Idx(t.right, a + Count(t.left)), p, k, q, s1);
    } else if IsConsuming(t.tok) {
      hide Matches;
      BeforeConsuming(n, m, i, p, r, q, rest);
      steps := rest + 1;
    } else if t.tok.DupAsterisk? {
      InitTwoMember(Idx(t.left, a), nxi);
      if p == r {
        hide Matches;
        BeforeEpsilon(n, m, i, nxi, p, q, rest);
        steps := rest + 1;
      } else {
        var k: nat :| p < k <= r && Matches(m, t.left, p, k) && Matches(m, t, k, r);
        hide Matches;
        var s1 := MatchRuns(n, m, t, a, nxi, k, r, q, rest);
        var s2 := MatchRuns(n, m, t.left, a, i, p, k, q, s1);
        BeforeEpsilon(n, m, i, Idx(t.left, a), p, q, s2);
        steps := s2 + 1;
      }
    } else if t.tok.Alt? {
      hide Matches;
      var l, u := Start(t.left, a, nxi), Start(t.right, a + Count(t.left), nxi);
      InitTwoMember(l, u);
      var e, s1 := l, 0;
      if Matches(m, t.left, p, r) {
        s1 := MatchRuns(n, m, t.left, a, nxi, p, r, q, rest);
      } else {
        e := u;
        s1 := MatchRuns(n, m, t.right, a + Count(t.left), nxi, p, r, q, rest);
      }
      BeforeEpsilon(n, m, i, e, p, q, s1);
      steps := s1 + 1;
    } else {
      hide Matches;
      BeforeEpsilon(n, m, i, nxi, p, q, rest);
      steps := rest + 1;
    }
  }

  /** From the start of a tree the automaton accepts a span exactly when the span splits
      into a match of the tree and a part accepted from the tree's continuation. */
  lemma AcceptsSplits(n: Nfa, m: Matcher, t: Tree, a: nat, nxi: int, p: nat, q: nat)
    requires t.Node? && WellFormed(t) && Inner(t) && Linked(n, t, a, nxi)
    ensures Accepts(n, m, Idx(t, a), p, q) <==>
      exists r: nat | p <= r <= q :: Matches(m, t, p, r) && Accepts(n, m, nxi, r, q)
  {
    if Accepts(n, m, Idx(t, a), p, q) {
      var steps: nat :| Run(n, m, Idx(t, a), p, q, steps);
      var r, rest := RunMatches(n, m, t, a, nxi, p, q, steps);
    }
    if r: nat :| p <= r <= q && Matches(m, t, p, r) && Accepts(n, m, nxi, r, q) {
      var rest: nat :| Run(n, m, nxi, r, q, rest);
      var steps := MatchRuns(n, m, t, a, nxi, p, r, q, rest);
    }
  }

  /** The trees `parse` returns: the pattern followed by the end marker, or the marker alone. */
  ghost predicate IsPatternTree(t: Tree) {
    && WellFormed(t) && t.Node?
    && if t.tok.EndOfRe? then true
       else t.tok.Concat? && t.right.Node? && t.right.tok.EndOfRe? && NoEnd(t.left)
  }

  ghost predicate NoEnd(t: Tree) {
    t.Node? ==> !t.tok.EndOfRe? && NoEnd(t.left) && NoEnd(t.right)
  }

  /** The whole automaton accepts a span exactly when the pattern tree matches it. */
  lemma PatternAccepts(n: Nfa, m: Matcher, t: Tree, a: nat, nxi: int, p: nat, q: nat)
    requires IsPatternTree(t) && (t.tok.Concat? ==> Inner(t.left)) && Linked(n, t, a, nxi)
    ensures Accepts(n, m, Idx(t, a), p, q) <==> Matches(m, t, p, q)
  {
    if t.tok.EndOfRe? {
      if p == q { assert Run(n, m, Idx(t, a), p, q, 0); }
    } else {
      var e := Idx(t.right, a + Count(t.left));
      AcceptsSplits(n, m, t.left, a, e, p, q);
      assert n.nodes[e] == t.right.tok;
      assert p <= q ==> Run(n, m, e, q, q, 0) && Matches(m, t.right, q, q);
      if Matches(m, t, p, q) {
        var k := ConcatSplits(m, t, p, q);
        assert k == q && Accepts(n, m, e, q, q);
      }
      if Accepts(n, m, Idx(t, a), p, q) {
        var r: nat :| p <= r <= q && Matches(m, t.left, p, r) && Accepts(n, m, e, r, q);
        var steps: nat :| Run(n, m, e, r, q, steps);
        assert r == q;
      }
    }
  }
}
