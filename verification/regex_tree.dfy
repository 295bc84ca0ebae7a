/** Pattern trees as values, and what they match.

    A subject text is seen through its positions. A `Matcher` says which spans of
    the subject a single consuming token matches: a character matches a span of
    one byte, a multibyte bracket may match longer spans, and a back-reference
    whatever span its group's text occurs at. Everything below holds for every
    matcher, so no property depends on how one token matches. */
module RegexTree {

  datatype Token =
    | Character(c: int)
    | SimpleBracket(sbcset: set<int>)
    | Period
    | BackRef(idx: nat)
    | EndOfRe
    | OpenSubexp(idx: nat)
    | CloseSubexp(idx: nat)
    | Alt
    | DupAsterisk
    | Concat
    | Subexp(idx: nat)

  /** IS_EPSILON_NODE: the node types that carry EPSILON_BIT. */
  predicate IsEpsilonNode(tok: Token) {
    tok.OpenSubexp? || tok.CloseSubexp? || tok.Alt? || tok.DupAsterisk?
  }

  /** Tokens that consume a span of the subject; `Matcher` gives the spans. */
  predicate IsConsuming(tok: Token) {
    tok.Character? || tok.SimpleBracket? || tok.Period? || tok.BackRef?
  }

  type Matcher = (Token, nat, nat) -> bool

  /** A tree as a value. `id` is the arena slot the node lives in; `Null` is a null
      pointer, which stands for the empty expression. */
  datatype Tree = Null | Node(id: nat, tok: Token, left: Tree, right: Tree)

  ghost function Ids(t: Tree): set<nat> {
    if t.Null? then {} else {t.id} + Ids(t.left) + Ids(t.right)
  }

  ghost function Size(t: Tree): nat {
    if t.Null? then 0 else 1 + Size(t.left) + Size(t.right)
  }

  /** No slot occurs twice. */
  ghost predicate Distinct(t: Tree) {
    t.Node? ==>
      && t.id !in Ids(t.left) && t.id !in Ids(t.right) && Ids(t.left) !! Ids(t.right)
      && Distinct(t.left) && Distinct(t.right)
  }

  /** The tree pointer as the arena stores it: -1 is NULL. */
  function Ptr(t: Tree): int { if t.Null? then -1 else t.id }

  /** The tree matches the span [i, j) of the subject. Groups are transparent. */
  ghost predicate Matches(m: Matcher, t: Tree, i: nat, j: nat)
    decreases t, j - i
  {
    i <= j &&
    match t
    case Null => i == j
    case Node(_, Concat, l, r) =>
      exists k: nat | i <= k <= j :: Matches(m, l, i, k) && Matches(m, r, k, j)
    case Node(_, Alt, l, r) => Matches(m, l, i, j) || Matches(m, r, i, j)
    case Node(_, DupAsterisk, l, r) =>
      i == j || exists k: nat | i < k <= j :: Matches(m, l, i, k) && Matches(m, t, k, j)
    case Node(_, Subexp(_), l, _) => Matches(m, l, i, j)
    case Node(_, tok, _, _) => if IsConsuming(tok) then m(tok, i, j) else i == j
  }

  /** What the passes rely on: a concatenation has two children, a repetition has a
      left child only, a group at most a left child, and a leaf none. */
  ghost predicate WellFormed(t: Tree) {
    t.Null? ||
    (&& WellFormed(t.left) && WellFormed(t.right)
     && match t.tok
        case Concat => t.left.Node? && t.right.Node?
        case DupAsterisk => t.left.Node? && t.right.Null?
        case Alt => true
        case Subexp(_) => t.right.Null?
        case _ => t.left.Null? && t.right.Null?)
  }

  /** Same shape and tokens, whatever the arena slots. */
  ghost predicate SameTokens(t: Tree, u: Tree) {
    if t.Null? || u.Null? then t.Null? && u.Null?
    else t.tok == u.tok && SameTokens(t.left, u.left) && SameTokens(t.right, u.right)
  }

  /** Trees that differ only in slots match the same spans. */
  lemma {:induction false} SameTokensMatch(m: Matcher, t: Tree, u: Tree, i: nat, j: nat)
    requires SameTokens(t, u)
    ensures Matches(m, t, i, j) <==> Matches(m, u, i, j)
    decreases t, j - i
  {
    if t.Node? && i <= j {
      forall k: nat | i <= k <= j
        ensures Matches(m, t.left, i, k) <==> Matches(m, u.left, i, k)
        ensures Matches(m, t.right, k, j) <==> Matches(m, u.right, k, j)
      {
        SameTokensMatch(m, t.left, u.left, i, k);
        SameTokensMatch(m, t.right, u.right, k, j);
      }
      SameTokensMatch(m, t.right, u.right, i, j);
      if t.tok.DupAsterisk? {
        forall k: nat | i < k <= j ensures Matches(m, t, k, j) <==> Matches(m, u, k, j) {
          SameTokensMatch(m, t, u, k, j);
        }
      }
    }
  }

  lemma {:induction false} SameTokensRefl(t: Tree)
    ensures SameTokens(t, t)
  {
    if t.Node? { SameTokensRefl(t.left); SameTokensRefl(t.right); }
  }

  lemma {:induction false} SameTokensTrans(t: Tree, u: Tree, v: Tree)
    requires SameTokens(t, u) && SameTokens(u, v)
    ensures SameTokens(t, v)
  {
    if t.Node? { SameTokensTrans(t.left, u.left, v.left); SameTokensTrans(t.right, u.right, v.right); }
  }

  lemma {:induction false} SameTokensWellFormed(t: Tree, u: Tree)
    requires SameTokens(t, u) && WellFormed(t)
    ensures WellFormed(u)
  {
    if t.Node? { SameTokensWellFormed(t.left, u.left); SameTokensWellFormed(t.right, u.right); }
  }

  lemma MatchConcat(m: Matcher, t: Tree, p: nat, k: nat, r: nat)
    requires t.Node? && t.tok.Concat? && p <= k <= r && Matches(m, t.left, p, k) && Matches(m, t.right, k, r)
    ensures Matches(m, t, p, r)
  {
  }

  lemma ConcatSplits(m: Matcher, t: Tree, p: nat, r: nat) returns (k: nat)
    requires t.Node? && t.tok.Concat? && Matches(m, t, p, r)
    ensures p <= k <= r && Matches(m, t.left, p, k) && Matches(m, t.right, k, r)
  {
    k :| p <= k <= r && Matches(m, t.left, p, k) && Matches(m, t.right, k, r);
  }
}
