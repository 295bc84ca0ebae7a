/** The table of DFA states: a state is made once for a set of nodes, or for a set of nodes
    and a context, and found again through a hash that is a sum. */
module StateTables {
  import opened RegexTree
  import opened NodeSets
  import CIntegers

  // ----- Contexts and constraints, as bit masks -----

  const CONTEXT_WORD := 1
  const CONTEXT_NEWLINE := 2
  const CONTEXT_BEGBUF := 4

  const PREV_WORD_CONSTRAINT := 0x0001
  const PREV_NOTWORD_CONSTRAINT := 0x0002
  const PREV_NEWLINE_CONSTRAINT := 0x0010
  const PREV_BEGBUF_CONSTRAINT := 0x0040

  predicate Has(mask: nat, bit: nat)
    requires bit > 0
  {
    mask / bit % 2 == 1
  }

  /** NOT_SATISFY_PREV_CONSTRAINT */
  predicate NotSatisfyPrev(constraint: nat, context: nat) {
    || (Has(constraint, PREV_WORD_CONSTRAINT) && !Has(context, CONTEXT_WORD))
    || (Has(constraint, PREV_NOTWORD_CONSTRAINT) && Has(context, CONTEXT_WORD))
    || (Has(constraint, PREV_NEWLINE_CONSTRAINT) && !Has(context, CONTEXT_NEWLINE))
    || (Has(constraint, PREV_BEGBUF_CONSTRAINT) && !Has(context, CONTEXT_BEGBUF))
  }

  /** The nodes of the automaton. Contexts are masks of four bits. */
  datatype Nodes = Nodes(tokens: seq<Token>, constraints: seq<nat>)

  predicate InRange(n: Nodes, s: seq<int>) {
    |n.constraints| == |n.tokens| && forall i | 0 <= i < |s| :: 0 <= s[i] < |n.tokens|
  }

  /** The members of `s` that may be entered in `context`, in order. */
  ghost function Kept(n: Nodes, s: seq<int>, context: nat): seq<int>
    requires InRange(n, s)
  {
    if s == [] then []
    else
      var e := s[|s| - 1];
      Kept(n, s[..|s| - 1], context) + if NotSatisfyPrev(n.constraints[e], context) then [] else [e]
  }

  /** `k` are the members of `s` that are not OPEN, CLOSE, an alternative or a star, in order. */
  ghost predicate NonEpsilonOf(n: Nodes, s: seq<int>, k: seq<int>) {
    && Sorted(k)
    && forall x :: x in k <==>
         x in s && 0 <= x < |n.tokens| &&
         !n.tokens[x].OpenSubexp? && !n.tokens[x].CloseSubexp? && !n.tokens[x].Alt? && !n.tokens[x].DupAsterisk?
  }

  lemma {:induction false} KeptMembers(n: Nodes, s: seq<int>, context: nat)
    requires InRange(n, s) && Sorted(s)
    ensures var k := Kept(n, s, context);
      && Sorted(k) && InRange(n, k) && |k| <= |s|
      && forall x :: x in k <==> x in s && 0 <= x < |n.constraints| && !NotSatisfyPrev(n.constraints[x], context)
  {
    if s != [] {
      var r, e := s[..|s| - 1], s[|s| - 1];
      KeptMembers(n, r, context);
      assert s == r + [e];
      forall x | x in Kept(n, r, context) ensures x < e { assert x in r; }
      SortedConcat(Kept(n, r, context), [e]);
    }
  }

  // ----- What the masks mean -----

  function One(b: bool): nat { if b then 1 else 0 }

  /** 1 for a word character before the position, 2 for a newline, 4 for the start and 8 for
      the end of the buffer. */
  function ContextMask(word: bool, newline: bool, begbuf: bool, endbuf: bool): nat {
    One(word) + 2 * One(newline) + 4 * One(begbuf) + 8 * One(endbuf)
  }

  /** Each constraint on what comes before asks for one thing about the context; those on what
      comes after ask for nothing here. */
  lemma PrevExactly(word: bool, newline: bool, begbuf: bool, endbuf: bool, pw: bool, pn: bool, pl: bool, pb: bool,
                    nw: bool, nn: bool, nl: bool, ne: bool, rest: nat)
    ensures var constraint :=
      One(pw) + 2 * One(pn) + 4 * One(nw) + 8 * One(nn) + 16 * One(pl) + 32 * One(nl) + 64 * One(pb) + 128 * One(ne) + 256 * rest;
      !NotSatisfyPrev(constraint, ContextMask(word, newline, begbuf, endbuf)) <==>
        (pw ==> word) && (pn ==> !word) && (pl ==> newline) && (pb ==> begbuf)
  {
    HasBits(One(pw), One(pn), One(nw), One(nn), One(pl), One(nl), One(pb), One(ne) + 2 * rest);
    HasBits(One(word), One(newline), One(begbuf), One(endbuf), 0, 0, 0, 0);
    hide Has;
  }

  lemma HasBits(x0: nat, x1: nat, x2: nat, x3: nat, x4: nat, x5: nat, x6: nat, rest: nat)
    requires x0 <= 1 && x1 <= 1 && x2 <= 1 && x3 <= 1 && x4 <= 1 && x5 <= 1 && x6 <= 1
    ensures var m := x0 + 2 * x1 + 4 * x2 + 8 * x3 + 16 * x4 + 32 * x5 + 64 * x6 + 128 * rest;
      (Has(m, 1) <==> x0 == 1) && (Has(m, 2) <==> x1 == 1) && (Has(m, 4) <==> x2 == 1) && (Has(m, 16) <==> x4 == 1)
      && (Has(m, 64) <==> x6 == 1)
  {
    var m := x0 + 2 * x1 + 4 * x2 + 8 * x3 + 16 * x4 + 32 * x5 + 64 * x6 + 128 * rest;
    HasBit(m, 1, 0, x0, x1 + 2 * x2 + 4 * x3 + 8 * x4 + 16 * x5 + 32 * x6 + 64 * rest);
    HasBit(m, 2, x0, x1, x2 + 2 * x3 + 4 * x4 + 8 * x5 + 16 * x6 + 32 * rest);
    HasBit(m, 4, x0 + 2 * x1, x2, x3 + 2 * x4 + 4 * x5 + 8 * x6 + 16 * rest);
    HasBit(m, 16, x0 + 2 * x1 + 4 * x2 + 8 * x3, x4, x5 + 2 * x6 + 4 * rest);
    HasBit(m, 64, x0 + 2 * x1 + 4 * x2 + 8 * x3 + 16 * x4 + 32 * x5, x6, rest);
    hide Has;
  }

  lemma HasBit(m: nat, bit: nat, below: nat, x: nat, above: nat)
    requires bit == 1 || bit == 2 || bit == 4 || bit == 16 || bit == 64
    requires below < bit && x <= 1 && m == below + bit * (x + 2 * above)
    ensures Has(m, bit) <==> x == 1
  {
    assert m / bit == x + 2 * above;
  }

  /** The anchors ^ and \` are entered exactly after a newline and at the start of the buffer,
      a node without constraint always. */
  lemma EnteredExactly(n: Nodes, s: seq<int>, word: bool, newline: bool, begbuf: bool, endbuf: bool, x: int)
    requires Sorted(s) && InRange(n, s) && x in s && 0 <= x < |n.constraints|
    ensures var k := Kept(n, s, ContextMask(word, newline, begbuf, endbuf)); var c := n.constraints[x];
      (c == 0 ==> x in k) && (c == 0x10 ==> (x in k <==> newline)) && (c == 0x40 ==> (x in k <==> begbuf))
  {
    hide NotSatisfyPrev, ContextMask, Kept, Sorted;
    var context := ContextMask(word, newline, begbuf, endbuf);
    KeptMembers(n, s, context);
    PrevOne(word, newline, begbuf, endbuf);
  }

  lemma PrevOne(word: bool, newline: bool, begbuf: bool, endbuf: bool)
    ensures var context := ContextMask(word, newline, begbuf, endbuf);
      && !NotSatisfyPrev(0, context) && (!NotSatisfyPrev(0x10, context) <==> newline)
      && (!NotSatisfyPrev(0x40, context) <==> begbuf)
  {
    hide NotSatisfyPrev, ContextMask;
    PrevExactly(word, newline, begbuf, endbuf, false, false, false, false, false, false, false, false, 0);
    PrevExactly(word, newline, begbuf, endbuf, false, false, true, false, false, false, false, false, 0);
    PrevExactly(word, newline, begbuf, endbuf, false, false, false, true, false, false, false, false, 0);
  }

  // ----- The hash -----

  /** Number and sum of the nodes. */
  ghost function Weight(s: seq<int>): int { if s == [] then 0 else Weight(s[..|s| - 1]) + 1 + s[|s| - 1] }

  ghost function Total(s: seq<int>): int { if s == [] then 0 else s[0] + Total(s[1..]) }

  lemma {:induction false} WeightTotal(s: seq<int>)
    ensures Weight(s) == |s| + Total(s)
    decreases |s|
  {
    if |s| > 1 {
      var r, e := s[..|s| - 1], s[|s| - 1];
      WeightTotal(r);
      WeightTotal(s[1..]);
      assert s[1..][..|s| - 2] == r[1..] && s[1..][|s| - 2] == e;
      WeightTotal(r[1..]);
    }
  }

  /** A sum in an unsigned type with `m` values. */
  function Reduced(x: int, m: nat): (r: nat)
    requires m > 0
    ensures r < m
  {
    x % m
  }

  ghost function HashOf(s: seq<int>, context: nat, modulus: nat): nat
    requires modulus > 0
  {
    Reduced(Weight(s) + context, modulus)
  }

  /** calc_state_hash */
  method CalcStateHash(nodes: NodeSet, context: nat, modulus: nat) returns (hash: nat)
    requires nodes.Valid() && modulus > 0
    ensures hash == HashOf(nodes.Contents(), context, modulus) < modulus
    ensures hash == (nodes.nelem + Total(nodes.Contents()) + context) % modulus
  {
    hide Reduced, Sorted;
    hash := Reduced(nodes.nelem + context, modulus);
    var i := 0;
    ghost var s, sum := nodes.Contents(), 0;
    assert Weight(s[..0]) == 0;
    while i < nodes.nelem
      invariant 0 <= i <= nodes.nelem && Weight(s[..i]) == i + sum
      invariant hash == Reduced(nodes.nelem + context + sum, modulus)
    {
      assert s[..i + 1][..i] == s[..i] && s[..i + 1][i] == nodes.elems[i];
      AddResidue(nodes.nelem + context + sum, nodes.elems[i], modulus);
      sum := sum + nodes.elems[i];
      hash := Reduced(hash + nodes.elems[i], modulus);
      i := i + 1;
    }
    assert s[..i] == s;
    WeightTotal(s);
    ReducedIs(nodes.nelem + Total(s) + context, modulus);
  }

  lemma ReducedIs(x: int, m: nat)
    requires m > 0
    ensures Reduced(x, m) == x % m
  {
  }

  lemma AddResidue(x: int, y: int, m: nat)
    requires m > 0
    ensures Reduced(Reduced(x, m) + y, m) == Reduced(x + y, m)
  {
    var q := x / m;
    assert x + y == (x % m + y) + q * m;
    MultipleAway(x % m + y, q, m);
  }

  lemma MultipleAway(x: int, q: int, m: int)
    requires m > 0
    ensures (x + q * m) % m == x % m
  {
    var r, j := x % m, x / m;
    assert x + q * m == (j + q) * m + r by { assert (j + q) * m == j * m + q * m; }
    CIntegers.ResidueIs(x + q * m, j + q, r, m);
  }

  ghost function Triangle(n: nat): nat { if n == 0 then 0 else n + Triangle(n - 1) }

  lemma {:induction false} TriangleGrows(m: nat, n: nat)
    requires m <= n
    ensures Triangle(m) <= Triangle(n)
    decreases n
  {
    if m < n { TriangleGrows(m, n - 1); }
  }

  /** No set of nodes is heavier than the set of all of them. */
  lemma {:induction false} WeightBound(s: seq<int>, n: nat)
    requires Sorted(s) && forall i | 0 <= i < |s| :: 0 <= s[i] < n
    ensures 0 <= Weight(s) <= Triangle(n)
    decreases |s|
  {
    if s != [] {
      var r, e := s[..|s| - 1], s[|s| - 1];
      forall i | 0 <= i < |r| ensures r[i] < e { assert s[i] < s[|s| - 1]; }
      WeightBound(r, e);
      TriangleGrows(e + 1, n);
    }
  }

  lemma WeightNext(s: seq<int>, e: int)
    ensures Weight(s + [e]) == Weight(s) + 1 + e
  {
    assert (s + [e])[..|s|] == s;
  }

  /** Dropping a node makes a set lighter. */
  lemma {:induction false} KeptWeight(n: Nodes, s: seq<int>, context: nat)
    requires InRange(n, s)
    ensures Weight(Kept(n, s, context)) <= Weight(s)
    ensures Weight(Kept(n, s, context)) == Weight(s) ==> Kept(n, s, context) == s
    decreases |s|
  {
    hide Weight, NotSatisfyPrev;
    if s != [] {
      var r, e := s[..|s| - 1], s[|s| - 1];
      KeptWeight(n, r, context);
      assert s == r + [e];
      WeightNext(r, e);
      var k := Kept(n, r, context);
      WeightNext(k, e);
      assert k + [] == k;
    }
  }

  // ----- States -----

  /** re_dfastate_t. Node sets of a state do not change any more, so they are kept as values. */
  class State {
    const hash: nat
    const nodes: seq<int>
    const nonEpsNodes: seq<int>
    const entrance: seq<int>
    const context: nat
    const halt: bool
    const hasBackref: bool

    constructor (hash: nat, nodes: seq<int>, nonEpsNodes: seq<int>, entrance: seq<int>, context: nat, halt: bool, hasBackref: bool)
      ensures this.hash == hash && this.nodes == nodes && this.nonEpsNodes == nonEpsNodes && this.entrance == entrance
      ensures this.context == context && this.halt == halt && this.hasBackref == hasBackref
    {
      this.hash, this.nodes, this.nonEpsNodes, this.entrance := hash, nodes, nonEpsNodes, entrance;
      this.context, this.halt, this.hasBackref := context, halt, hasBackref;
    }
  }

  /** The parts of a state that sum up its nodes. */
  ghost predicate Summarized(n: Nodes, s: State) {
    && InRange(n, s.entrance) && NonEpsilonOf(n, s.nodes, s.nonEpsNodes)
    && (s.halt <==> exists i :: 0 <= i < |s.entrance| && n.tokens[s.entrance[i]].EndOfRe?)
    && (s.hasBackref <==> exists i :: 0 <= i < |s.entrance| && n.tokens[s.entrance[i]].BackRef?)
  }

  /** A state made for the entrance nodes and context it says it is for. */
  ghost predicate Sound(n: Nodes, modulus: nat, s: State) {
    && modulus > 0 && Sorted(s.entrance) && InRange(n, s.entrance) && s.context < 16 && InRange(n, s.nodes)
    && s.hash == HashOf(s.entrance, s.context, modulus)
    && (s.nodes == Kept(n, s.entrance, s.context) || (s.context == 0 && s.nodes == s.entrance))
    && Summarized(n, s)
  }

  lemma SoundSummarized(n: Nodes, modulus: nat, s: State)
    requires Sound(n, modulus, s)
    ensures Summarized(n, s)
  {
  }

  /** Whether the sums never exceed the hash type. */
  ghost predicate NoWrap(n: Nodes, modulus: nat) { Triangle(|n.tokens|) + 15 < modulus }

  /** A state that has the hash of the nodes without context, and those nodes, was not made
      for a context and has lost no node: dropping one, or a context, would show in the sum. */
  lemma NotConfused(n: Nodes, modulus: nat, s: State, nodes: seq<int>)
    requires Sound(n, modulus, s) && NoWrap(n, modulus) && s.nodes == nodes && s.hash == HashOf(nodes, 0, modulus)
    ensures s.context == 0 && s.entrance == nodes
  {
    hide HashOf, Kept, Summarized, Weight, Triangle, NotSatisfyPrev;
    KeptMembers(n, s.entrance, s.context);
    KeptWeight(n, s.entrance, s.context);
    WeightBound(s.entrance, |n.tokens|);
    WeightBound(nodes, |n.tokens|);
    HashSmall(s.entrance, s.context, modulus);
    HashSmall(nodes, 0, modulus);
  }

  lemma HashSmall(s: seq<int>, context: nat, modulus: nat)
    requires 0 <= Weight(s) && Weight(s) + context < modulus
    ensures HashOf(s, context, modulus) == Weight(s) + context
  {
  }

  // ----- Searching a bucket -----

  /** The first state of the bucket with that hash and those nodes; the length if none. */
  ghost function PlainAt(bucket: seq<State>, hash: nat, nodes: seq<int>): (i: nat)
    ensures i <= |bucket| && (i < |bucket| ==> bucket[i].hash == hash && bucket[i].nodes == nodes)
    ensures forall j | 0 <= j < i :: !(bucket[j].hash == hash && bucket[j].nodes == nodes)
  {
    if bucket == [] then 0
    else
      var i := PlainAt(bucket[..|bucket| - 1], hash, nodes);
      if i < |bucket| - 1 || (bucket[i].hash == hash && bucket[i].nodes == nodes) then i else |bucket|
  }

  /** The same for entrance nodes and a context. */
  ghost function ContextAt(bucket: seq<State>, hash: nat, entrance: seq<int>, context: nat): (i: nat)
    ensures i <= |bucket|
    ensures i < |bucket| ==> bucket[i].hash == hash && bucket[i].entrance == entrance && bucket[i].context == context
    ensures forall j | 0 <= j < i :: !(bucket[j].hash == hash && bucket[j].entrance == entrance && bucket[j].context == context)
  {
    if bucket == [] then 0
    else
      var i := ContextAt(bucket[..|bucket| - 1], hash, entrance, context);
      if i < |bucket| - 1 || (bucket[i].hash == hash && bucket[i].entrance == entrance && bucket[i].context == context)
      then i else |bucket|
  }

  /** A state once found is found again, whatever is added later. */
  lemma FoundAgain(b: seq<State>, b': seq<State>, hash: nat, nodes: seq<int>, context: nat)
    requires b <= b'
    ensures PlainAt(b, hash, nodes) < |b| ==> PlainAt(b', hash, nodes) == PlainAt(b, hash, nodes)
    ensures ContextAt(b, hash, nodes, context) < |b| ==> ContextAt(b', hash, nodes, context) == ContextAt(b, hash, nodes, context)
  {
    assert forall i | 0 <= i < |b| :: b'[i] == b[i];
  }

  // ----- Making a state -----

  /** re_node_set_init_copy */
  method InitCopy(src: NodeSet) returns (dest: NodeSet)
    requires src.Valid()
    ensures fresh(dest) && fresh(dest.elems) && dest.Valid() && dest.Contents() == src.Contents()
  {
    dest := new NodeSet(src.nelem);
    forall i | 0 <= i < src.nelem { dest.elems[i] := src.elems[i]; }
    dest.nelem := src.nelem;
    assert dest.elems[..dest.nelem] == src.elems[..src.nelem];
  }

  /** The loop of register_state: the nodes that are not epsilon nodes. */
  method CollectNonEpsilon(n: Nodes, nodes: NodeSet) returns (s: seq<int>)
    requires nodes.Valid() && InRange(n, nodes.Contents())
    ensures NonEpsilonOf(n, nodes.Contents(), s)
  {
    hide Sorted, NonEpsilonOf;
    var nonEpsNodes := new NodeSet(nodes.nelem);
    ghost var c := nodes.Contents();
    var i := 0;
    NonEpsilonNone(n);
    assert nonEpsNodes.Contents() == [] == c[..0];
    while i < nodes.nelem
      invariant 0 <= i <= nodes.nelem && nonEpsNodes.nelem <= nonEpsNodes.elems.Length
      invariant fresh(nonEpsNodes) && fresh(nonEpsNodes.elems) && nodes.Contents() == c
      invariant NonEpsilonOf(n, c[..i], nonEpsNodes.Contents())
    {
      var elem := nodes.elems[i];
      assert elem == c[i] && c[..i + 1][..i] == c[..i] && c[..i + 1][i] == elem;
      NonEpsilonNext(n, c, i, nonEpsNodes.Contents());
      if !IsEpsilonNode(n.tokens[elem]) { nonEpsNodes.InsertLast(elem); }
      i := i + 1;
    }
    assert c[..i] == c;
    s := nonEpsNodes.elems[..nonEpsNodes.nelem];
  }

  lemma NonEpsilonNone(n: Nodes)
    ensures NonEpsilonOf(n, [], [])
  {
  }

  lemma NonEpsilonNext(n: Nodes, c: seq<int>, i: nat, k: seq<int>)
    requires Sorted(c) && InRange(n, c) && i < |c| && NonEpsilonOf(n, c[..i], k)
    ensures NonEpsilonOf(n, c[..i + 1], if IsEpsilonNode(n.tokens[c[i]]) then k else k + [c[i]])
  {
    assert c[..i + 1] == c[..i] + [c[i]];
    forall x | x in k ensures x < c[i] { assert x in c[..i]; }
    SortedConcat(k, [c[i]]);
  }

  /** The loop of create_ci_newstate. */
  method CollectFlags(n: Nodes, nodes: NodeSet) returns (halt: bool, hasBackref: bool)
    requires nodes.Valid() && InRange(n, nodes.Contents())
    ensures halt <==> exists i :: 0 <= i < nodes.nelem && n.tokens[nodes.Contents()[i]].EndOfRe?
    ensures hasBackref <==> exists i :: 0 <= i < nodes.nelem && n.tokens[nodes.Contents()[i]].BackRef?
  {
    halt, hasBackref := false, false;
    ghost var c := nodes.Contents();
    var i := 0;
    while i < nodes.nelem
      invariant 0 <= i <= nodes.nelem
      invariant halt <==> exists j :: 0 <= j < i && n.tokens[c[j]].EndOfRe?
      invariant hasBackref <==> exists j :: 0 <= j < i && n.tokens[c[j]].BackRef?
    {
      var elem := nodes.elems[i];
      assert elem == c[i];
      if n.tokens[elem].EndOfRe? { halt := true; } else if n.tokens[elem].BackRef? { hasBackref := true; }
      i := i + 1;
    }
  }

  /** The loop of create_cd_newstate that removes the nodes that may not be entered. The copy
      gets shorter while the loop runs over the request, so the index is corrected by the
      number of nodes removed so far. */
  method RemoveUnsatisfied(n: Nodes, nodes: NodeSet, copy: NodeSet, context: nat)
    requires nodes.Valid() && copy.Valid() && copy != nodes && copy.elems != nodes.elems
    requires InRange(n, nodes.Contents()) && copy.Contents() == nodes.Contents()
    modifies copy`nelem, copy.elems
    ensures copy.Valid() && copy.Contents() == Kept(n, nodes.Contents(), context)
  {
    hide Sorted, NotSatisfyPrev;
    var i, nctxNodes := 0, 0;
    ghost var c := nodes.Contents();
    assert Kept(n, c[..0], context) + c[0..] == c;
    while i < nodes.nelem
      invariant 0 <= i <= nodes.nelem && nctxNodes == i - |Kept(n, c[..i], context)|
      invariant copy.Valid() && nodes.Contents() == c
      invariant copy.Contents() == Kept(n, c[..i], context) + c[i..]
    {
      var elem := nodes.elems[i];
      assert elem == c[i];
      KeptNext(n, c, i, context);
      ghost var before, at := copy.Contents(), i - nctxNodes;
      if n.constraints[elem] != 0 {
        if NotSatisfyPrev(n.constraints[elem], context) {
          DropAt(Kept(n, c[..i], context), c, i);
          copy.RemoveAt(i - nctxNodes);
          nctxNodes := nctxNodes + 1;
        }
      } else {
        NoConstraint(context);
      }
      i := i + 1;
    }
    assert c[..i] == c && c[i..] == [];
  }

  lemma NoConstraint(context: nat)
    ensures !NotSatisfyPrev(0, context)
  {
  }

  lemma KeptNext(n: Nodes, c: seq<int>, i: nat, context: nat)
    requires InRange(n, c) && i < |c|
    ensures var k := Kept(n, c[..i], context);
      Kept(n, c[..i + 1], context) == if NotSatisfyPrev(n.constraints[c[i]], context) then k else k + [c[i]]
    ensures Kept(n, c[..i], context) + c[i..] == Kept(n, c[..i], context) + [c[i]] + c[i + 1..]
  {
    assert c[..i + 1][..i] == c[..i] && c[..i + 1][i] == c[i];
    assert c[i..] == [c[i]] + c[i + 1..];
  }

  lemma DropAt(k: seq<int>, c: seq<int>, i: nat)
    requires i < |c|
    ensures var s := k + c[i..]; s[..|k|] + s[|k| + 1..] == k + c[i + 1..]
  {
  }

  // ----- The history of requests -----

  /** A request that was answered: for nodes alone or for nodes and a context. */
  datatype Request = Plain(nodes: seq<int>, answer: State) | InContext(nodes: seq<int>, context: nat, answer: State)

  ghost predicate AskedPlain(log: seq<Request>, c: seq<int>) {
    exists i :: 0 <= i < |log| && log[i].Plain? && log[i].nodes == c
  }

  /** Which function was the first to be asked for the nodes `c` without context. */
  datatype First = Neither | ByNodes | ByContext

  ghost function FirstFor(log: seq<Request>, c: seq<int>): First {
    if log == [] then Neither
    else
      var f, r := FirstFor(log[..|log| - 1], c), log[|log| - 1];
      if f != Neither || r.nodes != c then f
      else if r.Plain? then ByNodes
      else if r.context == 0 then ByContext
      else Neither
  }

  lemma FirstNext(log: seq<Request>, r: Request, c: seq<int>)
    ensures FirstFor(log + [r], c) ==
      if FirstFor(log, c) != Neither || r.nodes != c then FirstFor(log, c)
      else if r.Plain? then ByNodes else if r.context == 0 then ByContext else Neither
  {
    assert (log + [r])[..|log|] == log;
  }

  // ----- The table and its history -----

  ghost predicate Filtered(n: Nodes, s: State) { InRange(n, s.entrance) && s.nodes == Kept(n, s.entrance, s.context) }

  /** States sit in the bucket of their hash. */
  ghost predicate InPlace(n: Nodes, modulus: nat, b: seq<seq<State>>) {
    && modulus > 0 && |b| > 0 && |n.constraints| == |n.tokens|
    && forall k, i | 0 <= k < |b| && 0 <= i < |b[k]| :: Sound(n, modulus, b[k][i]) && b[k][i].hash % |b| == k
  }

  ghost predicate SameState(s: State, t: State) {
    s.entrance == t.entrance && s.context == t.context && s.nodes == t.nodes
  }

  /** No two states have the same entrance nodes, context and nodes. */
  ghost predicate OneEach(b: seq<seq<State>>) {
    forall k, i, l, j | 0 <= k < |b| && 0 <= i < |b[k]| && 0 <= l < |b| && 0 <= j < |b[l]| ::
      SameState(b[k][i], b[l][j]) ==> k == l && i == j
  }

  /** Only a request without context makes a state that keeps nodes its context excludes. */
  ghost predicate Explained(n: Nodes, b: seq<seq<State>>, log: seq<Request>) {
    forall k, i | 0 <= k < |b| && 0 <= i < |b[k]| ::
      Filtered(n, b[k][i]) || (b[k][i].nodes == b[k][i].entrance && AskedPlain(log, b[k][i].entrance))
  }

  /** What the search for the request finds. */
  ghost predicate Finds(modulus: nat, b: seq<seq<State>>, r: Request)
    requires modulus > 0 && |b| > 0
  {
    match r
    case Plain(c, s) =>
      var hash := HashOf(c, 0, modulus);
      var i := PlainAt(b[hash % |b|], hash, c);
      i < |b[hash % |b|]| && b[hash % |b|][i] == s
    case InContext(c, context, s) =>
      var hash := HashOf(c, context, modulus);
      var i := ContextAt(b[hash % |b|], hash, c, context);
      i < |b[hash % |b|]| && b[hash % |b|][i] == s
  }

  /** Every request made so far would get the same answer again. */
  ghost predicate Remembered(modulus: nat, b: seq<seq<State>>, log: seq<Request>)
    requires modulus > 0 && |b| > 0
  {
    forall i | 0 <= i < |log| :: Finds(modulus, b, log[i])
  }

  /** What a search for `c` in context 0 finds: nothing if nobody asked, otherwise a state as
      the first one to ask needed it. */
  ghost predicate SpotDecides(n: Nodes, spot: seq<State>, hash: nat, f: First, c: seq<int>) {
    var i := ContextAt(spot, hash, c, 0);
    && (i == |spot| <==> f == Neither)
    && (f == ByNodes ==> spot[i].nodes == c)
    && (f == ByContext ==> Filtered(n, spot[i]))
  }

  ghost predicate FirstDecides(n: Nodes, modulus: nat, b: seq<seq<State>>, f: First, c: seq<int>)
    requires modulus > 0 && |b| > 0
  {
    var hash := HashOf(c, 0, modulus);
    SpotDecides(n, b[hash % |b|], hash, f, c)
  }

  ghost predicate FirstsDecide(n: Nodes, modulus: nat, b: seq<seq<State>>, log: seq<Request>)
    requires modulus > 0 && |b| > 0
  {
    forall c :: FirstDecides(n, modulus, b, FirstFor(log, c), c)
  }

  ghost predicate TableOk(n: Nodes, modulus: nat, b: seq<seq<State>>, log: seq<Request>) {
    && InPlace(n, modulus, b) && OneEach(b) && Explained(n, b, log) && Remembered(modulus, b, log)
    && (NoWrap(n, modulus) ==> FirstsDecide(n, modulus, b, log))
  }

  lemma NewTableOk(n: Nodes, modulus: nat, b: seq<seq<State>>)
    requires modulus > 0 && |b| > 0 && |n.constraints| == |n.tokens| && forall k | 0 <= k < |b| :: b[k] == []
    ensures TableOk(n, modulus, b, [])
  {
  }

  /** A further request that is answered from the table. */
  lemma FoundOk(n: Nodes, modulus: nat, b: seq<seq<State>>, log: seq<Request>, r: Request)
    requires TableOk(n, modulus, b, log) && Finds(modulus, b, r)
    requires NoWrap(n, modulus) ==> (r.Plain? ==> r.answer.context == 0 && r.answer.entrance == r.nodes)
    ensures TableOk(n, modulus, b, log + [r])
  {
    ExplainedLonger(n, b, log, r);
    assert modulus > 0 && |b| > 0;
    hide InPlace, OneEach, Explained, Finds, NoWrap, FirstDecides;
    if NoWrap(n, modulus) {
      forall c ensures FirstDecides(n, modulus, b, FirstFor(log + [r], c), c) { FoundDecides(n, modulus, b, log, r, c); }
    }
  }

  lemma FoundDecides(n: Nodes, modulus: nat, b: seq<seq<State>>, log: seq<Request>, r: Request, c: seq<int>)
    requires InPlace(n, modulus, b) && Finds(modulus, b, r) && FirstDecides(n, modulus, b, FirstFor(log, c), c)
    requires r.Plain? ==> r.answer.context == 0 && r.answer.entrance == r.nodes
    ensures FirstDecides(n, modulus, b, FirstFor(log + [r], c), c)
  {
    hide HashOf, ContextAt, PlainAt;
    FirstNext(log, r, c);
    if r.nodes == c && (r.Plain? || r.context == 0) { FoundBefore(n, modulus, b, r); }
  }

  lemma ExplainedLonger(n: Nodes, b: seq<seq<State>>, log: seq<Request>, r: Request)
    requires Explained(n, b, log)
    ensures Explained(n, b, log + [r])
  {
    forall c | AskedPlain(log, c) ensures AskedPlain(log + [r], c) {
      var i :| 0 <= i < |log| && log[i].Plain? && log[i].nodes == c;
      assert (log + [r])[i] == log[i];
    }
  }

  /** Whoever is found without context, somebody has asked for. */
  lemma FoundBefore(n: Nodes, modulus: nat, b: seq<seq<State>>, r: Request)
    requires InPlace(n, modulus, b) && Finds(modulus, b, r)
    requires r.Plain? ==> r.answer.context == 0 && r.answer.entrance == r.nodes
    requires r.InContext? ==> r.context == 0
    ensures var hash := HashOf(r.nodes, 0, modulus); var spot := b[hash % |b|]; ContextAt(spot, hash, r.nodes, 0) < |spot|
  {
    hide HashOf;
    var hash := HashOf(r.nodes, 0, modulus);
    var spot := b[hash % |b|];
    if r.Plain? {
      var i := PlainAt(spot, hash, r.nodes);
      assert spot[i].hash == hash && spot[i].entrance == r.nodes && spot[i].context == 0;
    }
  }

  lemma SearchNext(b: seq<State>, s: State, hash: nat, nodes: seq<int>, context: nat)
    ensures PlainAt(b + [s], hash, nodes) ==
      if PlainAt(b, hash, nodes) < |b| || (s.hash == hash && s.nodes == nodes) then PlainAt(b, hash, nodes) else |b| + 1
    ensures ContextAt(b + [s], hash, nodes, context) ==
      if ContextAt(b, hash, nodes, context) < |b| || (s.hash == hash && s.entrance == nodes && s.context == context)
      then ContextAt(b, hash, nodes, context) else |b| + 1
  {
    assert (b + [s])[..|b|] == b;
  }

  lemma SameHash(n: Nodes, modulus: nat, s: State, t: State)
    requires Sound(n, modulus, s) && Sound(n, modulus, t) && SameState(s, t)
    ensures s.hash == t.hash
  {
  }

  /** What the loop over a bucket has found. */
  lemma FoundHere(modulus: nat, b: seq<seq<State>>, r: Request, i: nat)
    requires modulus > 0 && |b| > 0
    requires var hash := HashOf(r.nodes, if r.Plain? then 0 else r.context, modulus); var spot := b[hash % |b|];
      && i < |spot| && spot[i] == r.answer && r.answer.hash == hash
      && match r
         case Plain(c, s) => s.nodes == c && forall j | 0 <= j < i :: !(spot[j].hash == hash && spot[j].nodes == c)
         case InContext(c, context, s) =>
           && s.entrance == c && s.context == context
           && forall j | 0 <= j < i :: !(spot[j].hash == hash && spot[j].entrance == c && spot[j].context == context)
    ensures Finds(modulus, b, r)
  {
    hide HashOf;
  }

  /** The state made for a request that the table could not answer. */
  ghost predicate MadeFor(n: Nodes, modulus: nat, b: seq<seq<State>>, r: Request) {
    && modulus > 0 && |b| > 0 && Sound(n, modulus, r.answer) && r.answer.entrance == r.nodes
    && match r
       case Plain(c, s) => s.context == 0 && s.nodes == c && PlainAt(b[s.hash % |b|], s.hash, c) == |b[s.hash % |b|]|
       case InContext(c, context, s) =>
         s.context == context && Filtered(n, s) && ContextAt(b[s.hash % |b|], s.hash, c, context) == |b[s.hash % |b|]|
  }

  ghost function Added(b: seq<seq<State>>, s: State): seq<seq<State>>
    requires |b| > 0
  {
    b[s.hash % |b| := b[s.hash % |b|] + [s]]
  }

  lemma MadeOneEach(n: Nodes, modulus: nat, b: seq<seq<State>>, r: Request)
    requires InPlace(n, modulus, b) && OneEach(b) && MadeFor(n, modulus, b, r)
    ensures OneEach(Added(b, r.answer))
  {
    var s := r.answer;
    forall l, i | 0 <= l < |b| && 0 <= i < |b[l]| ensures !SameState(b[l][i], s) {
      if SameState(b[l][i], s) { SameHash(n, modulus, b[l][i], s); }
    }
    hide Sound, SameState, PlainAt, ContextAt, Filtered;
  }

  lemma MadeExplained(n: Nodes, modulus: nat, b: seq<seq<State>>, log: seq<Request>, r: Request)
    requires Explained(n, b, log) && MadeFor(n, modulus, b, r)
    ensures Explained(n, Added(b, r.answer), log + [r])
  {
    ExplainedLonger(n, b, log, r);
    if r.Plain? { assert (log + [r])[|log|] == r; assert AskedPlain(log + [r], r.nodes); }
    hide Sound, Filtered, AskedPlain, PlainAt, ContextAt;
  }

  lemma StillFinds(n: Nodes, modulus: nat, b: seq<seq<State>>, s: State, r: Request)
    requires modulus > 0 && |b| > 0 && Finds(modulus, b, r)
    ensures Finds(modulus, Added(b, s), r)
  {
    hide HashOf;
    var hash := HashOf(r.nodes, if r.Plain? then 0 else r.context, modulus);
    var spot := b[hash % |b|];
    FoundAgain(spot, spot + [s], hash, r.nodes, if r.Plain? then 0 else r.context);
  }

  lemma NowFinds(n: Nodes, modulus: nat, b: seq<seq<State>>, r: Request)
    requires MadeFor(n, modulus, b, r)
    ensures Finds(modulus, Added(b, r.answer), r)
  {
    hide HashOf, Filtered;
    var spot := b[r.answer.hash % |b|];
    SearchNext(spot, r.answer, r.answer.hash, r.nodes, r.answer.context);
  }

  lemma SpotNext(n: Nodes, spot: seq<State>, s: State, hash: nat, f: First, f': First, c: seq<int>)
    requires SpotDecides(n, spot, hash, f, c)
    requires f' == f || (f == Neither && s.entrance == c && s.context == 0 && s.hash == hash)
    requires f == Neither && s.entrance == c && s.context == 0 ==> f' != Neither
    requires f' != f ==> if f' == ByNodes then s.nodes == c else Filtered(n, s)
    ensures SpotDecides(n, spot + [s], hash, f', c)
  {
    hide Filtered;
    SearchNext(spot, s, hash, c, 0);
  }

  lemma MadeDecides(n: Nodes, modulus: nat, b: seq<seq<State>>, log: seq<Request>, r: Request, c: seq<int>)
    requires modulus > 0 && |b| > 0 && r.answer.hash == HashOf(r.nodes, r.answer.context, modulus) && r.answer.entrance == r.nodes
    requires r.Plain? ==> r.answer.context == 0 && r.answer.nodes == r.nodes
    requires r.InContext? ==> r.answer.context == r.context && Filtered(n, r.answer)
    requires FirstDecides(n, modulus, b, FirstFor(log, c), c)
    ensures FirstDecides(n, modulus, Added(b, r.answer), FirstFor(log + [r], c), c)
  {
    hide HashOf, Filtered, SpotDecides;
    var s, hash := r.answer, HashOf(c, 0, modulus);
    FirstNext(log, r, c);
    if s.hash % |b| == hash % |b| {
      SpotNext(n, b[hash % |b|], s, hash, FirstFor(log, c), FirstFor(log + [r], c), c);
    }
  }

  /** A further request for which a state has been made. */
  lemma MadeOk(n: Nodes, modulus: nat, b: seq<seq<State>>, log: seq<Request>, r: Request)
    requires TableOk(n, modulus, b, log) && MadeFor(n, modulus, b, r)
    ensures TableOk(n, modulus, Added(b, r.answer), log + [r]) && Finds(modulus, Added(b, r.answer), r)
  {
    var b', log' := Added(b, r.answer), log + [r];
    MadeOneEach(n, modulus, b, r);
    MadeExplained(n, modulus, b, log, r);
    NowFinds(n, modulus, b, r);
    forall i | 0 <= i < |log'| ensures Finds(modulus, b', log'[i]) {
      if i < |log| { assert log'[i] == log[i]; StillFinds(n, modulus, b, r.answer, log[i]); }
    }
    if NoWrap(n, modulus) {
      forall c ensures FirstDecides(n, modulus, b', FirstFor(log', c), c) {
        assert FirstDecides(n, modulus, b, FirstFor(log, c), c);
        MadeDecides(n, modulus, b, log, r, c);
      }
    }
    MadeInPlace(n, modulus, b, r);
  }

  lemma MadeInPlace(n: Nodes, modulus: nat, b: seq<seq<State>>, r: Request)
    requires InPlace(n, modulus, b) && MadeFor(n, modulus, b, r)
    ensures InPlace(n, modulus, Added(b, r.answer))
  {
    assert Sound(n, modulus, r.answer);
    hide Sound, PlainAt, ContextAt, Filtered;
  }

  /** Which nodes the answer to a request in context has. */
  lemma AnswerExactly(n: Nodes, modulus: nat, b: seq<seq<State>>, log: seq<Request>, c: seq<int>, context: nat, s: State)
    requires TableOk(n, modulus, b, log) && Finds(modulus, b, InContext(c, context, s)) && InRange(n, c)
    requires context == 0 ==> FirstFor(log, c) != Neither
    ensures !AskedPlain(log, c) ==> s.nodes == Kept(n, c, context)
    ensures NoWrap(n, modulus) ==>
      s.nodes == if context != 0 || FirstFor(log, c) == ByContext then Kept(n, c, context) else c
    ensures NoWrap(n, modulus) ==>
      (s.nodes == Kept(n, c, context) <==> context != 0 || Kept(n, c, 0) == c || FirstFor(log, c) == ByContext)
  {
    hide HashOf, PlainAt, ContextAt, Kept, NoWrap;
    var hash := HashOf(c, context, modulus);
    var k := hash % |b|;
    var i := ContextAt(b[k], hash, c, context);
    assert Sound(n, modulus, b[k][i]);
    assert s.entrance == c && s.context == context;
    if NoWrap(n, modulus) && context == 0 {
      assert FirstDecides(n, modulus, b, FirstFor(log, c), c);
    }
  }

  /** With requests in context alone there is one state for its entrance nodes and context,
      with just the nodes that the context admits, in the bucket of its hash. */
  lemma OnePerContext(n: Nodes, modulus: nat, b: seq<seq<State>>, log: seq<Request>, k: nat, i: nat, l: nat, j: nat)
    requires TableOk(n, modulus, b, log) && forall x | 0 <= x < |log| :: log[x].InContext?
    requires k < |b| && i < |b[k]| && l < |b| && j < |b[l]|
    ensures Filtered(n, b[k][i]) && k == HashOf(b[k][i].entrance, b[k][i].context, modulus) % |b|
    ensures b[k][i].entrance == b[l][j].entrance && b[k][i].context == b[l][j].context ==> k == l && i == j
  {
    var s, t := b[k][i], b[l][j];
    assert Sound(n, modulus, s) && Sound(n, modulus, t);
    assert Filtered(n, s) && Filtered(n, t);
    if s.entrance == t.entrance && s.context == t.context { assert SameState(s, t); }
    hide HashOf, Remembered, NoWrap;
  }

  ghost predicate SameRequest(r: Request, r': Request) {
    r.nodes == r'.nodes && if r.Plain? then r'.Plain? else r'.InContext? && r.context == r'.context
  }

  lemma SameAnswers(modulus: nat, b: seq<seq<State>>, log: seq<Request>, r: Request)
    requires modulus > 0 && |b| > 0 && Remembered(modulus, b, log) && Finds(modulus, b, r)
    ensures forall i | 0 <= i < |log| && SameRequest(log[i], r) :: log[i].answer == r.answer
  {
    hide HashOf, PlainAt, ContextAt;
  }

  lemma NotAnswered(n: Nodes, modulus: nat, b: seq<seq<State>>, log: seq<Request>, r: Request)
    requires modulus > 0 && |b| > 0 && Remembered(modulus, b, log) && MadeFor(n, modulus, b, r)
    ensures forall i | 0 <= i < |log| :: !SameRequest(log[i], r)
  {
    hide PlainAt, ContextAt;
  }

  lemma TableParts(n: Nodes, modulus: nat, b: seq<seq<State>>, log: seq<Request>)
    requires TableOk(n, modulus, b, log)
    ensures modulus > 0 && |b| > 0 && |n.constraints| == |n.tokens| && Remembered(modulus, b, log)
    ensures forall k, i | 0 <= k < |b| && 0 <= i < |b[k]| :: Sound(n, modulus, b[k][i])
  {
    hide Sound, Remembered;
  }

  /** The part of re_dfa_t that holds states. `hash & state_hash_mask` is the remainder by
      the size of the table, which is a power of two. */
  class StateTable {
    const n: Nodes
    const modulus: nat
    const table: array<seq<State>>

    ghost var log: seq<Request>  // all requests so far with their answers

    constructor (n: Nodes, modulus: nat, size: nat)
      requires |n.constraints| == |n.tokens| && modulus > 0 && size > 0
      ensures Valid() && this.n == n && this.modulus == modulus && table.Length == size && fresh(table)
      ensures log == [] && forall k | 0 <= k < size :: table[k] == []
    {
      this.n, this.modulus := n, modulus;
      table := new seq<State>[size](_ => []);
      log := [];
      new;
      NewTableOk(n, modulus, table[..]);
    }

    ghost predicate Valid()
      reads this, table
    {
      TableOk(n, modulus, table[..], log)
    }

    /** register_state */
    method Register(newstate: State)
      requires modulus > 0 && table.Length > 0
      modifies table
      ensures table[..] == Added(old(table[..]), newstate)
    {
      var k := newstate.hash % table.Length;
      table[k] := table[k] + [newstate];
    }

    /** re_acquire_state. The same nodes always get the same state, with just these nodes. */
    method AcquireState(nodes: NodeSet) returns (s: State?)
      requires Valid() && nodes.Valid() && InRange(n, nodes.Contents())
      modifies this`log, table
      ensures Valid() && (s == null <==> nodes.nelem == 0)
      ensures s == null ==> log == old(log) && table[..] == old(table[..])
      ensures s != null ==> log == old(log) + [Plain(nodes.Contents(), s)] && s.nodes == nodes.Contents()
      ensures s != null ==> table[..] == old(table[..]) || table[..] == Added(old(table[..]), s)
      ensures s != null ==> forall i | 0 <= i < |old(log)| ::
        SameRequest(old(log)[i], Plain(nodes.Contents(), s)) ==> s == old(log)[i].answer && table[..] == old(table[..])
      ensures s != null && NoWrap(n, modulus) ==> s.context == 0 && s.entrance == nodes.Contents()
      ensures s != null ==> Summarized(n, s)
    {
      hide Sound, Summarized, NoWrap, HashOf, Sorted, TableOk, Added, Remembered, Finds, SameRequest, FirstFor;
      if nodes.nelem == 0 { return null; }
      ghost var c, b, log0 := nodes.Contents(), table[..], log;
      TableParts(n, modulus, b, log);
      var hash := CalcStateHash(nodes, 0, modulus);
      var spot := table[hash % table.Length];
      var request := nodes.elems[..nodes.nelem];
      var i := 0;
      while i < |spot|
        invariant 0 <= i <= |spot| && forall j | 0 <= j < i :: !(spot[j].hash == hash && spot[j].nodes == c)
      {
        var state := spot[i];
        if hash == state.hash && state.nodes == request {
          PlainConfused(n, modulus, state, c);
          SoundSummarized(n, modulus, state);
          ghost var r := Plain(c, state);
          FoundHere(modulus, b, r, i);
          FoundOk(n, modulus, b, log0, r);
          SameAnswers(modulus, b, log0, r);
          log := log0 + [r];
          return state;
        }
        i := i + 1;
      }
      var state := CreateCiNewstate(n, nodes, hash, modulus);
      SoundSummarized(n, modulus, state);
      ghost var r := Plain(c, state);
      assert MadeFor(n, modulus, b, r);
      MadeOk(n, modulus, b, log0, r);
      NotAnswered(n, modulus, b, log0, r);
      Register(state);
      log := log0 + [r];
      s := state;
    }

    /** re_acquire_state_context. The same nodes and context always get the same state. It has
        lost exactly the nodes its context excludes, unless the context is 0, some node is
        excluded, and the nodes were asked for without context before. */
    method AcquireStateContext(nodes: NodeSet, context: nat) returns (s: State?)
      requires Valid() && nodes.Valid() && InRange(n, nodes.Contents()) && context < 16
      modifies this`log, table
      ensures Valid() && (s == null <==> nodes.nelem == 0)
      ensures s == null ==> log == old(log) && table[..] == old(table[..])
      ensures s != null ==>
        log == old(log) + [InContext(nodes.Contents(), context, s)] && s.entrance == nodes.Contents() && s.context == context
      ensures s != null ==> table[..] == old(table[..]) || table[..] == Added(old(table[..]), s)
      ensures s != null ==> forall i | 0 <= i < |old(log)| ::
        SameRequest(old(log)[i], InContext(nodes.Contents(), context, s)) ==>
          s == old(log)[i].answer && table[..] == old(table[..])
      ensures s != null && !AskedPlain(log, nodes.Contents()) ==> s.nodes == Kept(n, nodes.Contents(), context)
      ensures s != null && NoWrap(n, modulus) ==>
        var c := nodes.Contents();
        s.nodes == if context != 0 || FirstFor(log, c) == ByContext then Kept(n, c, context) else c
      ensures s != null && NoWrap(n, modulus) ==>
        var c := nodes.Contents();
        s.nodes == Kept(n, c, context) <==> context != 0 || Kept(n, c, 0) == c || FirstFor(log, c) == ByContext
      ensures s != null ==> Summarized(n, s)
    {
      hide Sound, Summarized, NoWrap, HashOf, Sorted, TableOk, Added, Kept, AskedPlain, Remembered, Finds, SameRequest, FirstFor;
      if nodes.nelem == 0 { return null; }
      ghost var c, b, log0 := nodes.Contents(), table[..], log;
      TableParts(n, modulus, b, log);
      var hash := CalcStateHash(nodes, context, modulus);
      var spot := table[hash % table.Length];
      var request := nodes.elems[..nodes.nelem];
      var i := 0;
      while i < |spot|
        invariant 0 <= i <= |spot|
        invariant forall j | 0 <= j < i :: !(spot[j].hash == hash && spot[j].entrance == c && spot[j].context == context)
      {
        var state := spot[i];
        if state.hash == hash && state.context == context && state.entrance == request {
          ghost var r := InContext(c, context, state);
          SoundSummarized(n, modulus, state);
          FoundHere(modulus, b, r, i);
          FoundOk(n, modulus, b, log0, r);
          SameAnswers(modulus, b, log0, r);
          FirstNext(log0, r, c);
          log := log0 + [r];
          AnswerExactly(n, modulus, b, log, c, context, state);
          return state;
        }
        i := i + 1;
      }
      var state := CreateCdNewstate(n, nodes, context, hash, modulus);
      SoundSummarized(n, modulus, state);
      ghost var r := InContext(c, context, state);
      assert MadeFor(n, modulus, b, r);
      MadeOk(n, modulus, b, log0, r);
      NotAnswered(n, modulus, b, log0, r);
      FirstNext(log0, r, c);
      Register(state);
      log := log0 + [r];
      AnswerExactly(n, modulus, table[..], log, c, context, state);
      s := state;
    }
  }

  /** create_ci_newstate */
  method CreateCiNewstate(n: Nodes, nodes: NodeSet, hash: nat, ghost modulus: nat) returns (s: State)
    requires nodes.Valid() && InRange(n, nodes.Contents()) && modulus > 0 && hash == HashOf(nodes.Contents(), 0, modulus)
    ensures Sound(n, modulus, s) && s.hash == hash && s.entrance == nodes.Contents() == s.nodes && s.context == 0
  {
    hide HashOf, Sorted, NonEpsilonOf;
    var copy := InitCopy(nodes);
    var halt, hasBackref := CollectFlags(n, nodes);
    var nonEps := CollectNonEpsilon(n, copy);
    s := new State(hash, copy.elems[..copy.nelem], nonEps, copy.elems[..copy.nelem], 0, halt, hasBackref);
  }

  /** create_cd_newstate */
  method CreateCdNewstate(n: Nodes, nodes: NodeSet, context: nat, hash: nat, ghost modulus: nat) returns (s: State)
    requires nodes.Valid() && InRange(n, nodes.Contents()) && context < 16 && modulus > 0
    requires hash == HashOf(nodes.Contents(), context, modulus)
    ensures Sound(n, modulus, s) && s.hash == hash && s.entrance == nodes.Contents() && s.context == context
    ensures s.nodes == Kept(n, nodes.Contents(), context)
  {
    hide HashOf, Sorted, Kept, NonEpsilonOf;
    var copy := InitCopy(nodes);
    RemoveUnsatisfied(n, nodes, copy, context);
    KeptMembers(n, nodes.Contents(), context);
    var halt, hasBackref := CollectFlags(n, nodes);
    var nonEps := CollectNonEpsilon(n, copy);
    s := new State(hash, copy.elems[..copy.nelem], nonEps, nodes.elems[..nodes.nelem], context, halt, hasBackref);
  }

  lemma PlainConfused(n: Nodes, modulus: nat, s: State, nodes: seq<int>)
    requires Sound(n, modulus, s) && s.nodes == nodes && s.hash == HashOf(nodes, 0, modulus)
    ensures NoWrap(n, modulus) ==> s.context == 0 && s.entrance == nodes
  {
    if NoWrap(n, modulus) { NotConfused(n, modulus, s, nodes); }
  }

  /** With both functions on one table, a state made without regard to constraints is found
      for context 0 as well, with the nodes that context excludes still in it. */
  method PlainThenContext() returns (n: Nodes, s: State)
    ensures InRange(n, [0]) && Kept(n, [0], 0) == []
    ensures s.context == 0 && s.entrance == [0] && s.nodes == [0]
  {
    hide Sound, HashOf, Kept, Sorted, NotSatisfyPrev, TableOk;
    n := Nodes([EndOfRe], [PREV_WORD_CONSTRAINT]);
    var t := new StateTable(n, 0x1_0000_0000, 1);
    var nodes := new NodeSet(1);
    nodes.InsertLast(0);
    assert nodes.Contents() == [0];
    var plain := t.AcquireState(nodes);
    s := t.AcquireStateContext(nodes, 0);
    KeptNone(n);
    assert NoWrap(n, t.modulus) by { assert Triangle(1) == 1; }
    FirstNext([], Plain([0], plain), [0]);
    FirstNext([Plain([0], plain)], InContext([0], 0, s), [0]);
    assert FirstFor([], [0]) == Neither;
    assert FirstFor(t.log, [0]) == ByNodes by {
      assert t.log == [Plain([0], plain)] + [InContext([0], 0, s)];
      assert [] + [Plain([0], plain)] == [Plain([0], plain)];
    }
  }

  lemma KeptNone(n: Nodes)
    requires n == Nodes([EndOfRe], [PREV_WORD_CONSTRAINT])
    ensures InRange(n, [0]) && Kept(n, [0], 0) == []
  {
    assert [0][..0] == [] && Kept(n, [], 0) == [];
  }
}
