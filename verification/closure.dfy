/** calc_eclosure and calc_inveclosure: epsilon closures over a cyclic graph. */
module Closures {
  import opened RegexTree
  import opened NfaPasses
  import opened NodeSets

  // ----- Reachability along epsilon edges -----

  function Size(n: Nfa): nat { |n.nodes| }

  /** Every epsilon edge leads to a node. */
  ghost predicate GraphOk(n: Nfa) {
    |n.edests| == |n.nodes| && forall i, e | EpsilonEdge(n, i, e) :: 0 <= e < |n.nodes|
  }

  ghost predicate EpsilonEdge(n: Nfa, a: int, b: int) {
    0 <= a < |n.nodes| && a < |n.edests| && IsEpsilonNode(n.nodes[a]) && b in n.edests[a]
  }

  /** `p` walks from `a` to `b` along epsilon edges and enters no node of `avoid`. */
  ghost predicate IsWalk(n: Nfa, p: seq<int>, a: int, b: int, avoid: set<int>) {
    && |p| > 0 && p[0] == a && p[|p| - 1] == b
    && (forall i | 0 <= i < |p| - 1 :: EpsilonEdge(n, p[i], p[i + 1]))
    && (forall i | 0 <= i < |p| :: p[i] !in avoid)
  }

  ghost predicate ReachAvoiding(n: Nfa, a: int, b: int, avoid: set<int>) {
    exists p :: IsWalk(n, p, a, b, avoid)
  }

  ghost predicate Reach(n: Nfa, a: int, b: int) { ReachAvoiding(n, a, b, {}) }

  lemma ReachSelf(n: Nfa, a: int, avoid: set<int>)
    requires a !in avoid
    ensures ReachAvoiding(n, a, a, avoid)
  {
    assert IsWalk(n, [a], a, a, avoid);
  }

  lemma ReachStep(n: Nfa, a: int, e: int, b: int)
    requires EpsilonEdge(n, a, e) && Reach(n, e, b)
    ensures Reach(n, a, b)
  {
    var p :| IsWalk(n, p, e, b, {});
    assert IsWalk(n, [a] + p, a, b, {});
  }

  lemma AvoidLess(n: Nfa, a: int, b: int, avoid: set<int>)
    requires ReachAvoiding(n, a, b, avoid)
    ensures Reach(n, a, b)
  {
    var p :| IsWalk(n, p, a, b, avoid);
    assert IsWalk(n, p, a, b, {});
  }

  /** A walk away from `a` can leave `a` for good: the rest of it avoids `a` as well. */
  lemma {:induction false} LeaveForGood(n: Nfa, p: seq<int>, a: int, b: int, avoid: set<int>) returns (e: int)
    requires IsWalk(n, p, a, b, avoid) && a != b
    ensures EpsilonEdge(n, a, e) && e !in avoid && e != a && ReachAvoiding(n, e, b, avoid + {a})
    decreases |p|
  {
    if k :| 0 < k < |p| && p[k] == a {
      assert IsWalk(n, p[k..], a, b, avoid);
      e := LeaveForGood(n, p[k..], a, b, avoid);
    } else {
      e := p[1];
      assert EpsilonEdge(n, p[0], p[1]);
      assert IsWalk(n, p[1..], e, b, avoid + {a});
    }
  }

  lemma {:induction false} ReachRange(n: Nfa, p: seq<int>, a: int, b: int)
    requires GraphOk(n) && IsWalk(n, p, a, b, {}) && 0 <= a < |n.nodes|
    ensures 0 <= b < |n.nodes|
    decreases |p|
  {
    if |p| > 1 {
      assert EpsilonEdge(n, p[0], p[1]);
      assert IsWalk(n, p[1..], p[1], b, {});
      ReachRange(n, p[1..], p[1], b);
    }
  }

  /** The sorted contents are exactly what can be reached from node `i`. */
  ghost predicate ClosureOf(n: Nfa, i: int, c: seq<int>) {
    Sorted(c) && forall x :: x in c <==> Reach(n, i, x)
  }

  ghost predicate IsClosure(n: Nfa, i: int, s: NodeSet)
    reads s, s.elems
  {
    s.Valid() && ClosureOf(n, i, s.Contents())
  }

  /** A partial result: nothing unreachable, and everything reachable that avoids `avoid`. */
  ghost predicate PartialOf(n: Nfa, i: int, c: seq<int>, avoid: set<int>) {
    && (forall x | x in c :: Reach(n, i, x))
    && (forall x | ReachAvoiding(n, i, x, avoid) :: x in c)
  }

  /** The first `k` epsilon successors of `node` are accounted for: completely, or except
      for what can only be reached through the nodes to avoid. */
  ghost predicate Merged(n: Nfa, node: int, k: nat, c: seq<int>, avoid: set<int>, complete: bool)
    requires 0 <= node < |n.edests| && k <= |n.edests[node]|
  {
    && node in c
    && (forall x | x in c :: Reach(n, node, x))
    && (forall j, x | 0 <= j < k && ReachAvoiding(n, n.edests[node][j], x, avoid) :: x in c)
    && (complete ==> forall j, x | 0 <= j < k && Reach(n, n.edests[node][j], x) :: x in c)
  }

  lemma MergedStart(n: Nfa, node: int, avoid: set<int>)
    requires 0 <= node < |n.edests|
    ensures Merged(n, node, 0, [node], avoid, true)
  {
    ReachSelf(n, node, {});
  }

  /** A successor that is itself in progress contributes nothing that avoids it. */
  lemma MergedSkip(n: Nfa, node: int, k: nat, c: seq<int>, avoid: set<int>, complete: bool)
    requires 0 <= node < |n.edests| && k < |n.edests[node]| && Merged(n, node, k, c, avoid, complete)
    requires n.edests[node][k] in avoid
    ensures Merged(n, node, k + 1, c, avoid, false)
  {
    assert forall p, x :: !IsWalk(n, p, n.edests[node][k], x, avoid);
    assert forall x :: !ReachAvoiding(n, n.edests[node][k], x, avoid);
  }

  lemma MergedStep(n: Nfa, node: int, k: nat, c: seq<int>, e: seq<int>, c': seq<int>, avoid: set<int>, complete: bool, whole: bool)
    requires 0 <= node < |n.edests| && k < |n.edests[node]| && Merged(n, node, k, c, avoid, complete)
    requires EpsilonEdge(n, node, n.edests[node][k])
    requires if whole then ClosureOf(n, n.edests[node][k], e) else PartialOf(n, n.edests[node][k], e, avoid)
    requires forall x :: x in c' <==> x in c || x in e
    ensures Merged(n, node, k + 1, c', avoid, complete && whole)
  {
    var d := n.edests[node][k];
    forall x | x in e ensures Reach(n, node, x) { ReachStep(n, node, d, x); }
    forall x | ReachAvoiding(n, d, x, avoid) ensures x in e { AvoidLess(n, d, x, avoid); }
  }

  /** With all successors merged the set is the whole closure, if complete, and in any case
      holds everything reachable from `node` without entering `avoid`. */
  lemma MergedAll(n: Nfa, node: int, c: seq<int>, avoid: set<int>, complete: bool)
    requires 0 <= node < |n.edests| && Merged(n, node, |n.edests[node]|, c, avoid + {node}, complete)
    ensures PartialOf(n, node, c, avoid)
    ensures complete && Sorted(c) ==> ClosureOf(n, node, c)
  {
    forall x | ReachAvoiding(n, node, x, avoid) ensures x in c {
      if x != node {
        var p :| IsWalk(n, p, node, x, avoid);
        var e := LeaveForGood(n, p, node, x, avoid);
        var j :| 0 <= j < |n.edests[node]| && n.edests[node][j] == e;
      }
    }
    if complete {
      forall x | Reach(n, node, x) ensures x in c {
        if x != node {
          var p :| IsWalk(n, p, node, x, {});
          var e := LeaveForGood(n, p, node, x, {});
          AvoidLess(n, e, x, {} + {node});
          var j :| 0 <= j < |n.edests[node]| && n.edests[node][j] == e;
        }
      }
    }
  }

  /** A node that is not an epsilon node reaches itself alone. */
  lemma LeafClosure(n: Nfa, node: int, avoid: set<int>)
    requires 0 <= node < |n.nodes| && !IsEpsilonNode(n.nodes[node])
    ensures PartialOf(n, node, [node], avoid) && ClosureOf(n, node, [node])
  {
    ReachSelf(n, node, {});
    forall x | Reach(n, node, x) ensures x == node {
      if x != node {
        var p :| IsWalk(n, p, node, x, {});
        var e := LeaveForGood(n, p, node, x, {});
      }
    }
    forall x | ReachAvoiding(n, node, x, avoid) ensures x == node { AvoidLess(n, node, x, avoid); }
  }

  /** With nothing to avoid, a partial result is the closure. */
  lemma PartialWhole(n: Nfa, i: int, c: seq<int>)
    requires PartialOf(n, i, c, {}) && Sorted(c)
    ensures ClosureOf(n, i, c)
  {
  }

  /** eclosures[i].nelem: 0 is `NotYet`, -1 is `InProgress`, anything else is `Done`. */
  datatype Slot = NotYet | InProgress | Done(closure: NodeSet)

  ghost function Indices(k: nat): (r: set<int>)
    ensures forall i :: i in r <==> 0 <= i < k
  {
    if k == 0 then {} else Indices(k - 1) + {k - 1}
  }

  lemma IndicesLess(k: nat, started: set<int>, node: int)
    requires 0 <= node < k && node !in started
    ensures Indices(k) - (started + {node}) < Indices(k) - started
  {
    assert node in Indices(k) - started;
  }

  /** The nodes whose closure is being computed. */
  ghost function Started(slots: seq<Slot>): (r: set<int>)
    ensures forall i :: i in r <==> 0 <= i < |slots| && slots[i].InProgress?
  {
    set i | i in Indices(|slots|) && slots[i].InProgress?
  }

  /** A finished slot never changes again, and nothing is left in progress that was not before. */
  ghost predicate Advances(before: seq<Slot>, after: seq<Slot>) {
    && |after| == |before|
    && (forall i | 0 <= i < |before| && !before[i].NotYet? :: after[i] == before[i])
    && (forall i | 0 <= i < |before| && before[i].NotYet? :: !after[i].InProgress?)
  }

  lemma AdvancesStart(before: seq<Slot>, node: int)
    requires 0 <= node < |before| && before[node].NotYet?
    ensures var s := before[node := InProgress];
      Advances(s, s) && Started(s) == Started(before) + {node}
  {
  }

  lemma AdvancesTrans(a: seq<Slot>, b: seq<Slot>, c: seq<Slot>)
    ensures Advances(a, b) && Advances(b, c) ==> Advances(a, c)
  {
  }

  lemma AdvancesStarted(a: seq<Slot>, b: seq<Slot>)
    requires Advances(a, b)
    ensures |a| == |b| && Started(a) == Started(b)
    ensures forall i | 0 <= i < |a| && !a[i].NotYet? :: b[i] == a[i]
  {
  }

  lemma AdvancesEnd(before: seq<Slot>, after: seq<Slot>, node: int, last: Slot)
    requires 0 <= node < |before| && before[node].NotYet? && !last.InProgress?
    requires Advances(before[node := InProgress], after)
    ensures |after| == |before| && Advances(before, after[node := last])
  {
  }

  /** calc_eclosure_iter. Nodes in progress are skipped; a result that had to skip one is
      returned but, except at the root, not recorded. */
  method CalcEclosureIter(n: Nfa, eclosures: array<Slot>, node: int, root: bool) returns (newSet: NodeSet)
    requires GraphOk(n) && eclosures.Length == |n.nodes| && 0 <= node < |n.nodes| && eclosures[node].NotYet?
    requires forall i | 0 <= i < eclosures.Length && eclosures[i].Done? :: IsClosure(n, i, eclosures[i].closure)
    requires root ==> Started(eclosures[..]) == {}
    modifies eclosures
    ensures Advances(old(eclosures[..]), eclosures[..])
    ensures forall i | 0 <= i < eclosures.Length && eclosures[i].Done? :: IsClosure(n, i, eclosures[i].closure)
    ensures forall i | 0 <= i < eclosures.Length && eclosures[i].Done? && old(eclosures[i]).NotYet? ::
      fresh(eclosures[i].closure) && fresh(eclosures[i].closure.elems)
    ensures fresh(newSet) && fresh(newSet.elems)
    ensures newSet.Valid() && PartialOf(n, node, newSet.Contents(), Started(old(eclosures[..])))
    ensures eclosures[node].Done? ==> eclosures[node].closure == newSet
    ensures root ==> eclosures[node].Done?
    decreases Indices(|n.nodes|) - Started(eclosures[..]), 0
  {
    hide Merged, PartialOf, ClosureOf, Reach, ReachAvoiding, Sorted, Advances, Started, Indices, IsClosure;
    IndicesLess(|n.nodes|, Started(eclosures[..]), node);
    ghost var avoid := Started(eclosures[..]);
    ghost var before := eclosures[..];
    var eclosure := new NodeSet(|n.edests[node]| + 1);
    eclosure.InsertLast(node);
    var incomplete := false;
    AdvancesStart(before, node);
    eclosures[node] := InProgress;
    assert eclosures[..] == before[node := InProgress];
    assert eclosure.Contents() == [node];
    MergedStart(n, node, avoid + {node});
    if IsEpsilonNode(n.nodes[node]) {
      incomplete := MergeSuccessors(n, eclosures, node, eclosure);
      MergedAll(n, node, eclosure.Contents(), avoid, !incomplete);
    } else {
      LeafClosure(n, node, avoid);
    }
    AdvancesEnd(before, eclosures[..], node, if incomplete && !root then NotYet else Done(eclosure));
    ghost var last := eclosures[..];
    if incomplete && !root {
      eclosures[node] := NotYet;
    } else {
      if root { PartialWhole(n, node, eclosure.Contents()); }
      ItIsClosure(n, node, eclosure);
      eclosures[node] := Done(eclosure);
    }
    newSet := eclosure;
    assert eclosures[..] == last[node := eclosures[node]];
    forall k | 0 <= k < eclosures.Length && eclosures[k].Done? ensures IsClosure(n, k, eclosures[k].closure) {
      assert k != node ==> last[k] == eclosures[k];
    }
  }

  lemma ItIsClosure(n: Nfa, i: int, s: NodeSet)
    requires s.Valid() && ClosureOf(n, i, s.Contents())
    ensures IsClosure(n, i, s)
  {
  }

  /** The loop over the epsilon successors. The result says whether one was skipped or not
      complete. */
  method MergeSuccessors(n: Nfa, eclosures: array<Slot>, node: int, eclosure: NodeSet) returns (incomplete: bool)
    requires GraphOk(n) && eclosures.Length == |n.nodes| && 0 <= node < |n.nodes| && IsEpsilonNode(n.nodes[node])
    requires forall k | 0 <= k < eclosures.Length && eclosures[k].Done? :: IsClosure(n, k, eclosures[k].closure)
    requires forall k | 0 <= k < eclosures.Length && eclosures[k].Done? ::
      eclosures[k].closure != eclosure && eclosures[k].closure.elems != eclosure.elems
    requires eclosure.Valid() && Merged(n, node, 0, eclosure.Contents(), Started(eclosures[..]), true)
    modifies eclosures, eclosure, eclosure.elems
    ensures Advances(old(eclosures[..]), eclosures[..])
    ensures forall k | 0 <= k < eclosures.Length && eclosures[k].Done? :: IsClosure(n, k, eclosures[k].closure)
    ensures forall k | 0 <= k < eclosures.Length && eclosures[k].Done? && old(eclosures[k]).NotYet? ::
      fresh(eclosures[k].closure) && fresh(eclosures[k].closure.elems)
    ensures forall k | 0 <= k < eclosures.Length && eclosures[k].Done? ::
      eclosures[k].closure != eclosure && eclosures[k].closure.elems != eclosure.elems
    ensures eclosure.elems == old(eclosure.elems) || fresh(eclosure.elems)
    ensures eclosure.Valid()
    ensures Merged(n, node, |n.edests[node]|, eclosure.Contents(), Started(old(eclosures[..])), !incomplete)
    decreases Indices(|n.nodes|) - Started(eclosures[..]), 2
  {
    hide Merged, PartialOf, ClosureOf, Reach, ReachAvoiding, Sorted, Advances, Started, Indices, IsClosure;
    ghost var before := eclosures[..];
    AdvancesSelf(before);
    incomplete := false;
    var i := 0;
    while i < |n.edests[node]|
      invariant 0 <= i <= |n.edests[node]|
      invariant eclosure.elems == old(eclosure.elems) || fresh(eclosure.elems)
      invariant Advances(before, eclosures[..])
      invariant forall k | 0 <= k < eclosures.Length && eclosures[k].Done? :: IsClosure(n, k, eclosures[k].closure)
      invariant forall k | 0 <= k < eclosures.Length && eclosures[k].Done? && before[k].NotYet? ::
        fresh(eclosures[k].closure) && fresh(eclosures[k].closure.elems)
      invariant forall k | 0 <= k < eclosures.Length && eclosures[k].Done? ::
        eclosures[k].closure != eclosure && eclosures[k].closure.elems != eclosure.elems
      invariant eclosure.Valid() && Merged(n, node, i, eclosure.Contents(), Started(before), !incomplete)
    {
      AdvancesStarted(before, eclosures[..]);
      ghost var mid := eclosures[..];
      var whole := MergeSuccessor(n, eclosures, node, i, eclosure, !incomplete);
      incomplete := incomplete || !whole;
      AdvancesStarted(mid, eclosures[..]);
      AdvancesTrans(before, mid, eclosures[..]);
      i := i + 1;
    }
  }

  lemma AdvancesSelf(slots: seq<Slot>)
    ensures Advances(slots, slots)
  {
  }

  /** The body of that loop: merge the closure of one epsilon successor. The result says
      whether it was complete. */
  method MergeSuccessor(n: Nfa, eclosures: array<Slot>, node: int, i: nat, eclosure: NodeSet, ghost complete: bool)
    returns (whole: bool)
    requires GraphOk(n) && eclosures.Length == |n.nodes| && 0 <= node < |n.nodes|
    requires IsEpsilonNode(n.nodes[node]) && i < |n.edests[node]|
    requires forall k | 0 <= k < eclosures.Length && eclosures[k].Done? :: IsClosure(n, k, eclosures[k].closure)
    requires forall k | 0 <= k < eclosures.Length && eclosures[k].Done? ::
      eclosures[k].closure != eclosure && eclosures[k].closure.elems != eclosure.elems
    requires eclosure.Valid() && Merged(n, node, i, eclosure.Contents(), Started(eclosures[..]), complete)
    modifies eclosures, eclosure, eclosure.elems
    ensures Advances(old(eclosures[..]), eclosures[..])
    ensures forall k | 0 <= k < eclosures.Length && eclosures[k].Done? :: IsClosure(n, k, eclosures[k].closure)
    ensures forall k | 0 <= k < eclosures.Length && eclosures[k].Done? && old(eclosures[k]).NotYet? ::
      fresh(eclosures[k].closure) && fresh(eclosures[k].closure.elems)
    ensures forall k | 0 <= k < eclosures.Length && eclosures[k].Done? ::
      eclosures[k].closure != eclosure && eclosures[k].closure.elems != eclosure.elems
    ensures eclosure.elems == old(eclosure.elems) || fresh(eclosure.elems)
    ensures eclosure.Valid()
    ensures Merged(n, node, i + 1, eclosure.Contents(), Started(old(eclosures[..])), complete && whole)
    decreases Indices(|n.nodes|) - Started(eclosures[..]), 1
  {
    hide Merged, PartialOf, ClosureOf, Reach, ReachAvoiding, Sorted, Started, Indices;
    var edest := n.edests[node][i];
    assert edest in n.edests[node] && EpsilonEdge(n, node, edest);
    ghost var c, avoid, before := eclosure.Contents(), Started(eclosures[..]), eclosures[..];
    StartedMember(before, edest);
    // If the closure of 'edest' is being computed, leave it to the node that started it.
    if eclosures[edest].InProgress? {
      MergedSkip(n, node, i, c, avoid, complete);
      return false;
    }
    var elem: NodeSet;
    if eclosures[edest].NotYet? {
      elem := CalcEclosureIter(n, eclosures, edest, false);
    } else {
      elem := eclosures[edest].closure;
    }
    ghost var e := elem.Contents();
    whole := !eclosures[edest].NotYet?;
    eclosure.Merge(elem);
    MergedStep(n, node, i, c, e, eclosure.Contents(), avoid, complete, whole);
  }

  lemma StartedMember(slots: seq<Slot>, i: int)
    requires 0 <= i < |slots|
    ensures i in Started(slots) <==> slots[i].InProgress?
  {
  }

  /** calc_eclosure. Because the root call always records its result, the loop never has to
      start over: `incomplete` stays false. */
  method CalcEclosure(n: Nfa, eclosures: array<Slot>)
    requires GraphOk(n) && eclosures.Length == |n.nodes| > 0
    requires forall i | 0 <= i < eclosures.Length :: eclosures[i].NotYet?
    modifies eclosures
    ensures forall i | 0 <= i < eclosures.Length :: eclosures[i].Done? && IsClosure(n, i, eclosures[i].closure)
  {
    hide IsClosure, PartialOf;
    var incomplete, nodeIdx := false, 0;
    while true
      invariant 0 <= nodeIdx <= |n.nodes| && !incomplete
      invariant forall i | 0 <= i < eclosures.Length :: !eclosures[i].InProgress?
      invariant forall i | 0 <= i < nodeIdx :: eclosures[i].Done?
      invariant forall i | 0 <= i < eclosures.Length && eclosures[i].Done? :: IsClosure(n, i, eclosures[i].closure)
      decreases |n.nodes| - nodeIdx, if nodeIdx == |n.nodes| then 0 else 1
    {
      if nodeIdx == |n.nodes| {
        if !incomplete { break; }
        incomplete := false;
        nodeIdx := 0;
      }
      if eclosures[nodeIdx].NotYet? {
        ghost var before := eclosures[..];
        var set_ := CalcEclosureIter(n, eclosures, nodeIdx, true);
        AdvancesDone(before, eclosures[..]);
        if eclosures[nodeIdx].NotYet? {
          incomplete := true;
        }
      }
      nodeIdx := nodeIdx + 1;
    }
  }

  lemma AdvancesDone(before: seq<Slot>, after: seq<Slot>)
    requires Advances(before, after) && forall i | 0 <= i < |before| :: !before[i].InProgress?
    ensures |after| == |before| && forall i | 0 <= i < |after| :: !after[i].InProgress? && (before[i].Done? ==> after[i].Done?)
  {
    assert forall i | 0 <= i < |before| :: before[i].NotYet? || before[i].Done?;
  }

  // ----- calc_inveclosure -----

  /** The sources below `src` that reach `d`, and `src` itself if `d` is among `seen`. */
  ghost predicate InverseUpTo(n: Nfa, d: int, src: int, seen: seq<int>, c: seq<int>) {
    Sorted(c) && forall x :: x in c <==> (0 <= x < src && Reach(n, x, d)) || (x == src && d in seen)
  }

  lemma InverseInsert(n: Nfa, d: int, src: nat, seen: seq<int>, c: seq<int>)
    requires d !in seen
    ensures InverseUpTo(n, d, src, seen, c) ==> forall x | x in c :: x < src
    ensures InverseUpTo(n, d, src, seen, c) ==> InverseUpTo(n, d, src, seen + [d], c + [src])
  {
    if InverseUpTo(n, d, src, seen, c) { SortedConcat(c, [src]); }
  }

  lemma InverseOther(n: Nfa, d: int, src: int, seen: seq<int>, e: int, c: seq<int>)
    requires d != e
    ensures InverseUpTo(n, d, src, seen, c) ==> InverseUpTo(n, d, src, seen + [e], c)
  {
  }

  lemma InverseNext(n: Nfa, d: int, src: nat, seen: seq<int>, c: seq<int>)
    ensures InverseUpTo(n, d, src, seen, c) && ClosureOf(n, src, seen) ==> InverseUpTo(n, d, src + 1, [], c)
  {
  }

  /** Exactly the nodes that reach `d`. */
  ghost predicate ConverseOf(n: Nfa, d: int, c: seq<int>) {
    Sorted(c) && forall x :: x in c <==> 0 <= x < |n.nodes| && Reach(n, x, d)
  }

  lemma ClosureRange(n: Nfa, i: int, c: seq<int>)
    requires GraphOk(n) && 0 <= i < |n.nodes| && ClosureOf(n, i, c)
    ensures forall x | x in c :: 0 <= x < |n.nodes|
  {
    forall x | x in c ensures 0 <= x < |n.nodes| {
      var p :| IsWalk(n, p, i, x, {});
      ReachRange(n, p, i, x);
    }
  }

  /** Sets no two of which share anything. */
  ghost predicate Separate(sets: seq<NodeSet>)
    reads sets
  {
    forall i, j | 0 <= i < j < |sets| :: sets[i] != sets[j] && sets[i].elems != sets[j].elems
  }

  /** The first loop of calc_inveclosure: a new empty set for every node. */
  method NewSets(inveclosures: array<NodeSet>)
    modifies inveclosures
    ensures Separate(inveclosures[..])
    ensures forall i | 0 <= i < inveclosures.Length ::
      fresh(inveclosures[i]) && fresh(inveclosures[i].elems) && inveclosures[i].Valid() && inveclosures[i].Contents() == []
  {
    hide Sorted;
    EmptySorted();
    var idx := 0;
    while idx < inveclosures.Length
      invariant 0 <= idx <= inveclosures.Length
      invariant forall i | 0 <= i < idx :: fresh(inveclosures[i]) && fresh(inveclosures[i].elems)
      invariant forall i, j | 0 <= i < j < idx ::
        inveclosures[i] != inveclosures[j] && inveclosures[i].elems != inveclosures[j].elems
      invariant forall i | 0 <= i < idx :: inveclosures[i].Valid() && inveclosures[i].Contents() == []
    {
      inveclosures[idx] := new NodeSet(0);
      idx := idx + 1;
    }
  }

  lemma EmptySorted()
    ensures Sorted([])
  {
  }

  /** calc_inveclosure: the sorted converse of the closures. */
  method CalcInveclosure(n: Nfa, eclosures: seq<NodeSet>, inveclosures: array<NodeSet>)
    requires GraphOk(n) && |eclosures| == |n.nodes| == inveclosures.Length
    requires forall i | 0 <= i < |eclosures| :: IsClosure(n, i, eclosures[i])
    modifies inveclosures
    ensures forall d | 0 <= d < |n.nodes| :: inveclosures[d].Valid() && ConverseOf(n, d, inveclosures[d].Contents())
  {
    NewSets(inveclosures);
    var src := 0;
    var sets := inveclosures[..];
    while src < |n.nodes|
      invariant 0 <= src <= |n.nodes| && inveclosures[..] == sets
      invariant Separate(sets) && forall i | 0 <= i < |sets| :: fresh(sets[i]) && fresh(sets[i].elems)
      invariant forall i | 0 <= i < |eclosures| :: IsClosure(n, i, eclosures[i])
      invariant forall d | 0 <= d < |sets| :: sets[d].Valid() && InverseUpTo(n, d, src, [], sets[d].Contents())
    {
      ClosureRange(n, src, eclosures[src].Contents());
      InsertSource(n, eclosures[src], src, sets);
      src := src + 1;
    }
    forall d | 0 <= d < |sets| ensures ConverseOf(n, d, sets[d].Contents()) {
      assert InverseUpTo(n, d, src, [], sets[d].Contents());
    }
  }

  method InsertOne(sets: seq<NodeSet>, t: int, src: nat)
    requires 0 <= t < |sets| && sets[t].Valid() && Separate(sets) && forall d | 0 <= d < |sets| :: sets[d].Valid()
    requires forall x | x in sets[t].Contents() :: x < src
    modifies sets[t], sets[t].elems
    ensures Separate(sets) && sets[t].Valid()
    ensures sets[t].Contents() == old(sets[t].Contents()) + [src] && (sets[t].elems == old(sets[t].elems) || fresh(sets[t].elems))
    ensures forall d | 0 <= d < |sets| && d != t ::
      sets[d].Valid() && old(sets[d].Valid()) && sets[d].elems == old(sets[d].elems) && sets[d].Contents() == old(sets[d].Contents())
  {
    hide Sorted;
    assert forall d | 0 <= d < |sets| && d != t :: sets[d] != sets[t] && sets[d].elems != sets[t].elems;
    sets[t].InsertLast(src);
  }

  /** The inner loop: add `src` to the set of every node in its closure. */
  method InsertSource(n: Nfa, closure: NodeSet, src: nat, sets: seq<NodeSet>)
    requires IsClosure(n, src, closure) && Separate(sets)
    requires forall i | 0 <= i < |sets| :: sets[i] != closure && sets[i].elems != closure.elems
    requires forall d | 0 <= d < |sets| :: sets[d].Valid() && InverseUpTo(n, d, src, [], sets[d].Contents())
    requires forall x | x in closure.Contents() :: 0 <= x < |sets|
    modifies sets, set s | s in sets :: s.elems
    ensures Separate(sets)
    ensures forall d | 0 <= d < |sets| :: sets[d].elems == old(sets[d].elems) || fresh(sets[d].elems)
    ensures forall d | 0 <= d < |sets| :: sets[d].Valid() && InverseUpTo(n, d, src + 1, [], sets[d].Contents())
  {
    hide InverseUpTo, Sorted, ClosureOf;
    ghost var c := closure.Contents();
    var idx := 0;
    while idx < closure.nelem
      invariant 0 <= idx <= closure.nelem && closure.Valid() && closure.Contents() == c
      invariant Separate(sets)
      invariant forall i | 0 <= i < |sets| :: sets[i].elems == old(sets[i].elems) || fresh(sets[i].elems)
      invariant forall i | 0 <= i < |sets| :: sets[i].elems != closure.elems
      invariant forall d | 0 <= d < |sets| :: sets[d].Valid() && InverseUpTo(n, d, src, c[..idx], sets[d].Contents())
    {
      var t := closure.elems[idx];
      assert t == c[idx];
      assert t in c;
      FreshInPrefix(c, idx);
      ghost var before := sets[t].Contents();
      InverseInsert(n, t, src, c[..idx], before);
      forall d | 0 <= d < |sets| && d != t ensures InverseUpTo(n, d, src, c[..idx] + [t], sets[d].Contents()) {
        InverseOther(n, d, src, c[..idx], t, sets[d].Contents());
      }
      assert c[..idx + 1] == c[..idx] + [t];
      InsertOne(sets, t, src);
      idx := idx + 1;
    }
    assert c[..idx] == c;
    forall d | 0 <= d < |sets| ensures InverseUpTo(n, d, src + 1, [], sets[d].Contents()) {
      InverseNext(n, d, src, c, sets[d].Contents());
    }
  }

  lemma FreshInPrefix(c: seq<int>, idx: nat)
    requires idx < |c|
    ensures Sorted(c) ==> c[idx] !in c[..idx]
  {
  }
}
