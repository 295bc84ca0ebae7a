/** re_node_set: sets of node indices as sorted arrays, updated in place. */
module NodeSets {

  ghost predicate Sorted(s: seq<int>) {
    forall i, j | 0 <= i < j < |s| :: s[i] < s[j]
  }

  /** A set has one sorted array. */
  lemma {:induction false} SortedUnique(a: seq<int>, b: seq<int>)
    requires Sorted(a) && Sorted(b) && forall x :: x in a <==> x in b
    ensures a == b
  {
    assert a != [] ==> a[0] in a;
    assert b != [] ==> b[0] in b;
    if a != [] && b != [] {
      assert a[0] in a && b[0] in b;
      var i :| 0 <= i < |b| && b[i] == a[0];
      var j :| 0 <= j < |a| && a[j] == b[0];
      assert a[0] == b[0];
      forall x ensures x in a[1..] <==> x in b[1..] {
        assert x in a <==> x == a[0] || x in a[1..];
        assert x in b <==> x == b[0] || x in b[1..];
      }
      SortedUnique(a[1..], b[1..]);
    }
  }

  // ----- Folding one sorted sequence into another from the top -----

  /** `tail` is the finished top of the union of `d` and `u`, of which the first `k` and the
      first `delta` elements are still to be placed. */
  ghost predicate TailOk(d: seq<int>, u: seq<int>, k: nat, delta: nat, tail: seq<int>)
    requires k <= |d| && delta <= |u|
  {
    && Sorted(tail) && |tail| == |d| - k + |u| - delta
    && (forall x :: x in tail <==> x in d[k..] || x in u[delta..])
    && (forall x | x in tail :: (k > 0 ==> d[k - 1] < x) && (delta > 0 ==> u[delta - 1] < x))
  }

  lemma TailStart(d: seq<int>, u: seq<int>)
    ensures TailOk(d, u, |d|, |u|, [])
  {
  }

  lemma SortedConcat(a: seq<int>, b: seq<int>)
    requires Sorted(a) && Sorted(b) && forall x, y | x in a && y in b :: x < y
    ensures Sorted(a + b)
  {
    forall i, j | 0 <= i < j < |a + b| ensures (a + b)[i] < (a + b)[j] {
      if i < |a| <= j { assert a[i] in a && b[j - |a|] in b; }
    }
  }

  ghost predicate Apart(d: seq<int>, u: seq<int>) { forall x | x in u :: x !in d }

  /** The largest element left goes in front of the tail. */
  lemma TailStep(d: seq<int>, u: seq<int>, k: nat, delta: nat, tail: seq<int>)
    requires 0 < k <= |d| && 0 < delta <= |u|
    ensures TailOk(d, u, k, delta, tail) && Sorted(d) && Sorted(u) && Apart(d, u) ==>
      if u[delta - 1] > d[k - 1] then TailOk(d, u, k, delta - 1, [u[delta - 1]] + tail)
      else TailOk(d, u, k - 1, delta, [d[k - 1]] + tail)
  {
    if !(TailOk(d, u, k, delta, tail) && Sorted(d) && Sorted(u) && Apart(d, u)) { return; }
    assert u[delta - 1..] == [u[delta - 1]] + u[delta..] && d[k - 1..] == [d[k - 1]] + d[k..];
    assert d[k - 1] in d && u[delta - 1] in u;
    SortedConcat([u[delta - 1]], tail);
    SortedConcat([d[k - 1]], tail);
  }

  /** When one side is used up, the other side's rest goes in front unchanged. */
  lemma TailEnd(d: seq<int>, u: seq<int>, k: nat, delta: nat, tail: seq<int>)
    requires k <= |d| && delta <= |u| && TailOk(d, u, k, delta, tail) && Sorted(d) && Sorted(u)
    requires k == 0 || delta == 0
    ensures var s := u[..delta] + d[..k] + tail;
      Sorted(s) && forall x :: x in s <==> x in d || x in u
  {
    assert d == d[..k] + d[k..] && u == u[..delta] + u[delta..];
    var rest := if k == 0 then u[..delta] else d[..k];
    assert u[..delta] + d[..k] == rest;
    if k == 0 { TailBelow(u, delta, tail); } else { TailBelow(d, k, tail); }
    SortedConcat(rest, tail);
  }

  lemma TailBelow(d: seq<int>, k: nat, tail: seq<int>)
    requires k <= |d| && Sorted(d) && forall x | x in tail :: k > 0 ==> d[k - 1] < x
    ensures Sorted(d[..k]) && forall x, y | x in d[..k] && y in tail :: x < y
  {
  }

  // ----- Collecting what is new, from the top -----

  /** `u` holds, in order, the elements of `s[j..]` that are not in `d`; of `d` only the
      first `k` elements still matter. */
  ghost predicate NewOk(d: seq<int>, s: seq<int>, k: nat, j: nat, u: seq<int>)
    requires k <= |d| && j <= |s|
  {
    && Sorted(u) && |u| <= |s| - j
    && (forall x :: x in u <==> x in s[j..] && x !in d)
    && (forall x | x in d[k..] :: j > 0 ==> s[j - 1] < x)
  }

  lemma NewStart(d: seq<int>, s: seq<int>)
    ensures NewOk(d, s, |d|, |s|, [])
  {
  }

  lemma NewStep(d: seq<int>, s: seq<int>, k: nat, j: nat, u: seq<int>)
    requires 0 < k <= |d| && 0 < j <= |s| && Sorted(d) && Sorted(s) && NewOk(d, s, k, j, u)
    ensures d[k - 1] == s[j - 1] ==> NewOk(d, s, k - 1, j - 1, u)
    ensures d[k - 1] < s[j - 1] ==> NewOk(d, s, k, j - 1, [s[j - 1]] + u)
    ensures d[k - 1] > s[j - 1] ==> NewOk(d, s, k - 1, j, u)
  {
    assert s[j - 1..] == [s[j - 1]] + s[j..] && d[k - 1..] == [d[k - 1]] + d[k..];
    assert d[k - 1] in d && s[j - 1] in s;
    assert d == d[..k] + d[k..];
    if d[k - 1] < s[j - 1] {
      assert s[j - 1] !in d;
      SortedConcat([s[j - 1]], u);
    }
  }

  lemma NewEnd(d: seq<int>, s: seq<int>, k: nat, j: nat, u: seq<int>)
    requires k <= |d| && j <= |s| && Sorted(d) && Sorted(s) && NewOk(d, s, k, j, u) && (k == 0 || j == 0)
    ensures Sorted(s[..j] + u) && |s[..j] + u| <= |s|
    ensures forall x :: x in s[..j] + u <==> x in s && x !in d
  {
    assert s == s[..j] + s[j..] && d == d[..k] + d[k..];
    if j > 0 {
      assert forall x | x in d :: s[j - 1] < x;
      forall x | x in s[..j] ensures x <= s[j - 1] && x !in d {}
    }
    SortedConcat(s[..j], u);
  }

  /** The same for the common elements of two sorted sequences. */
  ghost predicate CommonOk(d: seq<int>, s1: seq<int>, s2: seq<int>, k: nat, j1: nat, j2: nat, u: seq<int>)
    requires k <= |d| && j1 <= |s1| && j2 <= |s2|
  {
    && Sorted(u) && |u| <= |s1| - j1 && |u| <= |s2| - j2
    && (forall x :: x in u <==> x in s1[j1..] && x in s2[j2..] && x !in d)
    && (forall x | x in s1[j1..] :: j2 > 0 ==> s2[j2 - 1] < x)
    && (forall x | x in s2[j2..] :: j1 > 0 ==> s1[j1 - 1] < x)
    && (forall x | x in d[k..] :: j1 > 0 ==> s1[j1 - 1] < x)
  }

  lemma CommonStart(d: seq<int>, s1: seq<int>, s2: seq<int>)
    ensures CommonOk(d, s1, s2, |d|, |s1|, |s2|, [])
  {
  }

  /** Elements of the destination above the current candidate are passed over. */
  lemma CommonSkip(d: seq<int>, s1: seq<int>, s2: seq<int>, k: nat, k': nat, j1: nat, j2: nat, u: seq<int>)
    requires k' <= k <= |d| && 0 < j1 <= |s1| && j2 <= |s2|
    ensures CommonOk(d, s1, s2, k, j1, j2, u) && (forall i | k' <= i < k :: d[i] > s1[j1 - 1]) ==> CommonOk(d, s1, s2, k', j1, j2, u)
  {
    assert d[k'..] == d[k'..k] + d[k..];
  }

  lemma CommonDrop(d: seq<int>, s1: seq<int>, s2: seq<int>, k: nat, j1: nat, j2: nat, u: seq<int>)
    requires k <= |d| && 0 < j1 <= |s1| && 0 < j2 <= |s2| && CommonOk(d, s1, s2, k, j1, j2, u)
    requires Sorted(s1) && Sorted(s2)
    ensures s1[j1 - 1] < s2[j2 - 1] ==> CommonOk(d, s1, s2, k, j1, j2 - 1, u)
    ensures s1[j1 - 1] > s2[j2 - 1] ==> CommonOk(d, s1, s2, k, j1 - 1, j2, u)
  {
    assert s1[j1 - 1..] == [s1[j1 - 1]] + s1[j1..] && s2[j2 - 1..] == [s2[j2 - 1]] + s2[j2..];
  }

  lemma CommonTake(d: seq<int>, s1: seq<int>, s2: seq<int>, k: nat, j1: nat, j2: nat, u: seq<int>)
    requires k <= |d| && 0 < j1 <= |s1| && 0 < j2 <= |s2| && CommonOk(d, s1, s2, k, j1, j2, u)
    requires Sorted(d) && Sorted(s1) && Sorted(s2) && s1[j1 - 1] == s2[j2 - 1]
    requires k == 0 || d[k - 1] <= s1[j1 - 1]
    ensures CommonOk(d, s1, s2, k, j1 - 1, j2 - 1,
      if k == 0 || d[k - 1] != s1[j1 - 1] then [s1[j1 - 1]] + u else u)
  {
    var v := s1[j1 - 1];
    assert s1[j1 - 1..] == [v] + s1[j1..] && s2[j2 - 1..] == [v] + s2[j2..];
    assert d == d[..k] + d[k..];
    if k == 0 || d[k - 1] != v {
      assert v !in d;
      SortedConcat([v], u);
    } else {
      assert v in d;
    }
  }

  lemma CommonEnd(d: seq<int>, s1: seq<int>, s2: seq<int>, k: nat, j1: nat, j2: nat, u: seq<int>)
    requires k <= |d| && j1 <= |s1| && j2 <= |s2|
    ensures CommonOk(d, s1, s2, k, j1, j2, u) && (j1 == 0 || j2 == 0) && Sorted(s1) && Sorted(s2) ==>
      Sorted(u) && forall x :: x in u <==> x in s1 && x in s2 && x !in d
  {
    assert s1 == s1[..j1] + s1[j1..] && s2 == s2[..j2] + s2[j2..];
  }

  // ----- The loops of re_node_set_merge and re_node_set_add_intersect, on the raw buffers -----

  /** The elements of `u` lie in `a` from `at` on. */
  ghost predicate Holds(a: array<int>, at: nat, u: seq<int>)
    reads a
  {
    at + |u| <= a.Length && a[at..at + |u|] == u
  }

  /** a[--at] = v, in front of the elements `u` that are already there. */
  method PutInFront(a: array<int>, at: nat, v: int, ghost u: seq<int>) returns (at': nat)
    requires 0 < at && Holds(a, at, u)
    modifies a
    ensures at' == at - 1 && Holds(a, at', [v] + u)
    ensures forall i | 0 <= i < a.Length && i != at' :: a[i] == old(a[i])
  {
    at' := at - 1;
    a[at'] := v;
    assert a[at..at + |u|] == u;
  }

  /** memcpy of the first `count` elements of `b` in front of the elements `u`. */
  method CopyInFront(a: array<int>, at: nat, b: array<int>, count: nat, ghost u: seq<int>) returns (at': nat)
    requires count <= at && count <= b.Length && a != b && Holds(a, at, u)
    modifies a
    ensures at' == at - count && Holds(a, at', b[..count] + u)
    ensures forall i | 0 <= i < at' :: a[i] == old(a[i])
  {
    at' := at - count;
    forall i | 0 <= i < count { a[at' + i] := b[i]; }
    assert a[at..at + |u|] == u && a[at'..at] == b[..count];
    assert a[at'..at + |u|] == a[at'..at] + a[at..at + |u|];
  }

  lemma HoldsNothing(a: array<int>, at: nat)
    requires at <= a.Length
    ensures Holds(a, at, [])
  {
  }

  lemma HoldsSlice(a: array<int>, at: nat, u: seq<int>)
    requires Holds(a, at, u)
    ensures at + |u| <= a.Length && a[at..at + |u|] == u
  {
  }

  /** Copy into the top of `a`, down from `top`, what is in `b` but not in the set `a[..n]`. */
  method CollectNew(a: array<int>, n: nat, b: array<int>, bn: nat, top: nat) returns (sbase: nat)
    requires n <= a.Length && bn <= b.Length && a != b && n + bn <= top - bn && top <= a.Length
    requires Sorted(a[..n]) && Sorted(b[..bn])
    modifies a
    ensures a[..n] == old(a[..n]) && top - bn <= sbase <= top
    ensures Sorted(a[sbase..top])
    ensures forall x :: x in a[sbase..top] <==> x in b[..bn] && x !in a[..n]
  {
    hide NewOk, Sorted, Holds;
    ghost var d, s := a[..n], b[..bn];
    ghost var u: seq<int> := [];
    sbase := top;
    var is_, id := bn - 1, n - 1;
    NewStart(d, s);
    HoldsNothing(a, top);
    while is_ >= 0 && id >= 0
      invariant -1 <= is_ < bn && -1 <= id < n && sbase == top - |u| && |u| <= bn - (is_ + 1)
      invariant Holds(a, sbase, u)
      invariant forall i | 0 <= i < n :: a[i] == d[i]
      invariant NewOk(d, s, id + 1, is_ + 1, u)
      decreases is_ + id
    {
      NewStep(d, s, id + 1, is_ + 1, u);
      if a[id] == b[is_] {
        is_, id := is_ - 1, id - 1;
      } else if a[id] < b[is_] {
        sbase := PutInFront(a, sbase, b[is_], u);
        u := [s[is_]] + u;
        is_ := is_ - 1;
      } else {
        id := id - 1;
      }
    }
    NewEnd(d, s, id + 1, is_ + 1, u);
    assert b[..bn] == s && b[..is_ + 1] == s[..is_ + 1];
    sbase := CopyInFront(a, sbase, b, is_ + 1, u);
    HoldsSlice(a, sbase, s[..is_ + 1] + u);
    assert a[..n] == d;
  }

  /** The inner loop of the search: down to an element that is not above `v`. */
  method SkipAbove(a: array<int>, from: int, v: int) returns (id: int)
    requires -1 <= from < a.Length
    ensures -1 <= id <= from && (id >= 0 ==> a[id] <= v) && forall i | id < i <= from :: a[i] > v
  {
    id := from;
    while id >= 0 && a[id] > v
      invariant -1 <= id <= from && forall i | id < i <= from :: a[i] > v
    {
      id := id - 1;
    }
  }

  /** The loop that looks for the elements common to `b1` and `b2`, down from their ends. It
      stops when the first `j1` or the first `j2` elements left are none. */
  method SearchCommon(a: array<int>, n: nat, b1: array<int>, n1: nat, b2: array<int>, n2: nat, top: nat,
                      ghost d: seq<int>, ghost s1: seq<int>, ghost s2: seq<int>)
    returns (sbase: nat, ghost u: seq<int>, ghost k: nat, ghost j1: nat, ghost j2: nat)
    requires 0 < n1 <= b1.Length && 0 < n2 <= b2.Length && a != b1 && a != b2
    requires n + n1 <= top && n + n2 <= top <= a.Length
    requires d == a[..n] && s1 == b1[..n1] && s2 == b2[..n2] && Sorted(d) && Sorted(s1) && Sorted(s2)
    modifies a
    ensures forall i | 0 <= i < n :: a[i] == d[i]
    ensures |u| <= n1 && |u| <= n2 && sbase == top - |u| && Holds(a, sbase, u)
    ensures k <= n && j1 <= n1 && j2 <= n2 && (j1 == 0 || j2 == 0) && CommonOk(d, s1, s2, k, j1, j2, u)
  {
    hide CommonOk, Sorted, Holds;
    sbase, u, k, j1, j2 := top, [], n, n1, n2;
    var i1, i2, id := n1 - 1, n2 - 1, n - 1;
    CommonStart(d, s1, s2);
    HoldsNothing(a, top);
    while i1 >= 0 && i2 >= 0
      invariant j1 == i1 + 1 <= n1 && j2 == i2 + 1 <= n2 && k == id + 1 <= n
      invariant sbase == top - |u| && |u| <= n1 - j1 && |u| <= n2 - j2
      invariant Holds(a, sbase, u)
      invariant forall i | 0 <= i < n :: a[i] == d[i]
      invariant CommonOk(d, s1, s2, k, j1, j2, u)
      decreases i1 + i2
    {
      assert b1[i1] == s1[j1 - 1] && b2[i2] == s2[j2 - 1];
      if b1[i1] == b2[i2] {
        id := SkipAbove(a, id, b1[i1]);
        CommonSkip(d, s1, s2, k, id + 1, j1, j2, u);
        k := id + 1;
        CommonTake(d, s1, s2, k, j1, j2, u);
        if id < 0 || a[id] != b1[i1] {
          sbase := PutInFront(a, sbase, b1[i1], u);
          u := [s1[j1 - 1]] + u;
        }
        i1, i2, j1, j2 := i1 - 1, i2 - 1, j1 - 1, j2 - 1;
      } else {
        CommonDrop(d, s1, s2, k, j1, j2, u);
        if b1[i1] < b2[i2] {
          i2, j2 := i2 - 1, j2 - 1;
        } else {
          i1, j1 := i1 - 1, j1 - 1;
        }
      }
    }
  }

  /** Collect likewise the elements common to `b1` and `b2` that the set does not have. */
  method CollectCommon(a: array<int>, n: nat, b1: array<int>, n1: nat, b2: array<int>, n2: nat, top: nat)
    returns (sbase: nat)
    requires 0 < n1 <= b1.Length && 0 < n2 <= b2.Length && a != b1 && a != b2
    requires n + n1 <= top && n + n2 <= top <= a.Length
    requires Sorted(a[..n]) && Sorted(b1[..n1]) && Sorted(b2[..n2])
    modifies a
    ensures a[..n] == old(a[..n]) && top - n1 <= sbase <= top && top - n2 <= sbase
    ensures Sorted(a[sbase..top])
    ensures forall x :: x in a[sbase..top] <==> x in b1[..n1] && x in b2[..n2] && x !in a[..n]
  {
    hide CommonOk, Sorted, Holds;
    ghost var d, s1, s2 := a[..n], b1[..n1], b2[..n2];
    ghost var u, k, j1, j2;
    sbase, u, k, j1, j2 := SearchCommon(a, n, b1, n1, b2, n2, top, d, s1, s2);
    CommonEnd(d, s1, s2, k, j1, j2, u);
    HoldsSlice(a, sbase, u);
    assert a[..n] == d && b1[..n1] == s1 && b2[..n2] == s2;
  }

  /** The loop that folds the scratch area a[sbase..top] into the set a[..n], down from the
      top of the result. It stops with the least `delta` scratch elements or the least `k`
      elements of the set still in place, whichever are left. */
  method FoldDown(a: array<int>, n: nat, sbase: nat, top: nat, ghost d: seq<int>, ghost u: seq<int>)
    returns (delta: nat, ghost k: nat, ghost tail: seq<int>)
    requires n + (top - sbase) <= sbase <= top <= a.Length && d == a[..n] && u == a[sbase..top]
    requires Sorted(d) && Sorted(u) && Apart(d, u)
    modifies a
    ensures k <= n && delta <= |u| && (k == 0 || delta == 0)
    ensures forall i | 0 <= i < k :: a[i] == d[i]
    ensures forall i | sbase <= i < sbase + delta :: a[i] == u[i - sbase]
    ensures |tail| == n + |u| - (k + delta) && Holds(a, k + delta, tail)
    ensures TailOk(d, u, k, delta, tail)
  {
    hide TailOk, Sorted, Holds, Apart;
    var id, is_ := n - 1, top - 1;
    delta, k, tail := top - sbase, n, [];
    var w := n + delta;
    TailStart(d, u);
    HoldsNothing(a, w);
    while delta > 0 && id >= 0
      invariant k == id + 1 && k <= n && delta <= |u| && is_ == sbase + delta - 1 && w == k + delta
      invariant forall i | 0 <= i < k :: a[i] == d[i]
      invariant forall i | sbase <= i < sbase + delta :: a[i] == u[i - sbase]
      invariant |tail| == n + |u| - w && Holds(a, w, tail)
      invariant TailOk(d, u, k, delta, tail)
      decreases id + delta
    {
      TailStep(d, u, k, delta, tail);
      var v, x := a[is_], a[id];
      assert v == u[delta - 1] && x == d[k - 1];
      if v > x {
        w := PutInFront(a, w, v, tail);
        tail, is_, delta := [v] + tail, is_ - 1, delta - 1;
      } else {
        w := PutInFront(a, w, x, tail);
        tail, id, k := [x] + tail, id - 1, k - 1;
      }
    }
  }

  /** memcpy of the scratch elements that are left to the bottom of the set. */
  method CopyDown(a: array<int>, from: nat, count: nat)
    requires count <= from && from + count <= a.Length
    modifies a
    ensures forall i | 0 <= i < count :: a[i] == old(a[from + i])
    ensures forall i | count <= i < a.Length :: a[i] == old(a[i])
  {
    forall i | 0 <= i < count { a[i] := a[from + i]; }
  }

  lemma FoldResult(d: seq<int>, u: seq<int>, k: nat, delta: nat, tail: seq<int>, c: seq<int>, c': seq<int>, sbase: nat, m: nat)
    requires k <= |d| && delta <= |u| && (k == 0 || delta == 0) && |c| == |c'|
    requires k + delta <= m <= sbase && sbase + delta <= |c| && c[k + delta..m] == tail
    requires forall i | 0 <= i < k :: c[i] == d[i]
    requires forall i | sbase <= i < sbase + delta :: c[i] == u[i - sbase]
    requires forall i | 0 <= i < delta :: c'[i] == c[sbase + i]
    requires forall i | delta <= i < |c| :: c'[i] == c[i]
    requires TailOk(d, u, k, delta, tail) && Sorted(d) && Sorted(u)
    ensures Sorted(c'[..m]) && forall x :: x in c'[..m] <==> x in d || x in u
  {
    TailEnd(d, u, k, delta, tail);
    hide TailOk, Sorted;
    forall i | k + delta <= i < m ensures c'[i] == tail[i - (k + delta)] {
      var j := i - (k + delta);
      assert c[k + delta..m][j] == c[k + delta + j];
      assert c'[i] == c[i];
    }
    assert c'[..m] == u[..delta] + d[..k] + tail;
  }

  /** Fold the sorted scratch area into the set: what is left of it goes to the bottom. */
  method FoldScratch(a: array<int>, n: nat, sbase: nat, top: nat)
    requires n + (top - sbase) <= sbase <= top <= a.Length
    requires Sorted(a[..n]) && Sorted(a[sbase..top])
    requires forall x | x in a[sbase..top] :: x !in a[..n]
    modifies a
    ensures Sorted(a[..n + (top - sbase)])
    ensures forall x :: x in a[..n + (top - sbase)] <==> x in old(a[..n]) || x in old(a[sbase..top])
  {
    hide TailOk, Sorted, Holds;
    ghost var d, u := a[..n], a[sbase..top];
    ghost var m := n + |u|;
    ghost var k, tail;
    var delta;
    delta, k, tail := FoldDown(a, n, sbase, top, d, u);
    ghost var c := a[..];
    HoldsSlice(a, k + delta, tail);
    SliceOfAll(a, k + delta, m);
    CopyDown(a, sbase, delta);
    FoldResult(d, u, k, delta, tail, c, a[..], sbase, m);
    SliceOfAll(a, 0, m);
  }

  lemma SliceOfAll(a: array<int>, lo: nat, hi: nat)
    requires lo <= hi <= a.Length
    ensures a[..][lo..hi] == a[lo..hi] && (lo == 0 ==> a[..hi] == a[..][..hi])
  {
  }

  // ----- re_node_set_insert -----

  /** How many leading elements are at most `e`. */
  ghost function LessEq(s: seq<int>, e: int): (q: nat)
    ensures q <= |s| && (q > 0 ==> s[q - 1] <= e) && forall i | q <= i < |s| :: s[i] > e
  {
    if s == [] then 0 else if s[|s| - 1] > e then LessEq(s[..|s| - 1], e) else |s|
  }

  /** The buffer after re_node_set_insert. An element that is already there is found only
      after everything above it has been shifted, and the shift is not undone. */
  ghost function Inserted(s: seq<int>, e: int): seq<int> {
    var q := LessEq(s, e);
    if q == 0 || s[q - 1] != e then s[..q] + [e] + s[q..]
    else if q < |s| then s[..q + 1] + s[q..|s| - 1]
    else s
  }

  ghost predicate InsertWorks(s: seq<int>, e: int) {
    Sorted(Inserted(s, e)) && forall x :: x in Inserted(s, e) <==> x in s || x == e
  }

  lemma InsertAt(s: seq<int>, q: nat, e: int)
    requires Sorted(s) && q <= |s| && (q > 0 ==> s[q - 1] < e) && forall i | q <= i < |s| :: s[i] > e
    ensures var r := s[..q] + [e] + s[q..];
      Sorted(r) && forall x :: x in r <==> x in s || x == e
  {
    var r := s[..q] + [e] + s[q..];
    forall i, j | 0 <= i < j < |r| ensures r[i] < r[j] {
      assert r[i] == if i < q then s[i] else if i == q then e else s[i - 1];
      assert r[j] == if j < q then s[j] else if j == q then e else s[j - 1];
      assert i < q ==> s[i] <= s[q - 1];
    }
    hide Sorted;
    assert s == s[..q] + s[q..];
  }

  lemma InsertAbsent(s: seq<int>, e: int)
    requires Sorted(s) && e !in s
    ensures InsertWorks(s, e)
  {
    hide Sorted, LessEq;
    var q := LessEq(s, e);
    assert q > 0 ==> s[q - 1] in s;
    InsertAt(s, q, e);
  }

  lemma InsertPresent(s: seq<int>, e: int)
    requires Sorted(s) && e in s
    ensures InsertWorks(s, e) <==> |s| < 2 || s[|s| - 2] <= e
  {
    var q, r := LessEq(s, e), Inserted(s, e);
    var i :| 0 <= i < |s| && s[i] == e;
    assert i == q - 1;
    if q + 1 < |s| {
      assert r[q] == s[q] && r[q + 1] == s[q];
      assert !Sorted(r);
      assert s[|s| - 2] > e;
    } else if q < |s| {
      assert r == s;
    }
  }

  /** The insertion does what its comment promises exactly when the element is absent or
      has at most one element above it. */
  lemma InsertExact(s: seq<int>, e: int)
    requires Sorted(s)
    ensures InsertWorks(s, e) <==> e !in s || |s| < 2 || s[|s| - 2] <= e
  {
    if e in s { InsertPresent(s, e); } else { InsertAbsent(s, e); }
  }

  /** The concrete case: inserting 3 into {1, 3, 5, 7} leaves 5 twice and loses 7. */
  lemma InsertPresentFails()
    ensures Inserted([1, 3, 5, 7], 3) == [1, 3, 5, 5]
  {
    assert LessEq([1, 3, 5, 7], 3) == 2;
  }

  /** Shift everything above `elem` up by one; `idx` is where `elem` belongs. */
  method ShiftAbove(a: array<int>, n: nat, elem: int) returns (idx: nat)
    requires 0 < n < a.Length && Sorted(a[..n])
    modifies a
    ensures idx == LessEq(old(a[..n]), elem)
    ensures forall i | 0 <= i <= idx && i < n :: a[i] == old(a[i])
    ensures forall i | idx < i <= n :: a[i] == old(a[i - 1])
  {
    ghost var s := a[..n];
    ghost var q := LessEq(s, elem);
    assert q > 0 ==> s[0] <= s[q - 1];
    assert q == 0 ==> s[0] > elem;
    idx := n;
    if elem < a[0] {
      while idx > 0
        invariant 0 <= idx <= n
        invariant forall i | 0 <= i <= idx && i < n :: a[i] == s[i]
        invariant forall i | idx < i <= n :: a[i] == s[i - 1]
      {
        a[idx] := a[idx - 1];
        idx := idx - 1;
      }
    } else {
      while a[idx - 1] > elem
        invariant q <= idx <= n
        invariant forall i | 0 <= i <= idx && i < n :: a[i] == s[i]
        invariant forall i | idx < i <= n :: a[i] == s[i - 1]
      {
        a[idx] := a[idx - 1];
        idx := idx - 1;
      }
    }
  }

  lemma InsertedCases(s: seq<int>, e: int)
    ensures s == [] ==> Inserted(s, e) == [e]
    ensures var q := LessEq(s, e);
      && q <= |s|
      && (q > 0 && s[q - 1] == e ==> Inserted(s, e) == if q < |s| then s[..q + 1] + s[q..|s| - 1] else s)
      && (q == 0 || s[q - 1] != e ==> Inserted(s, e) == s[..q] + [e] + s[q..])
  {
  }

  lemma OneMore(x: seq<int>, s: seq<int>, k: nat, e: int)
    requires k <= |s| && |x| == |s| + 1 && x[k] == e
    requires forall i | 0 <= i < k :: x[i] == s[i]
    requires forall i | k < i <= |s| :: x[i] == s[i - 1]
    ensures x == s[..k] + [e] + s[k..]
  {
  }

  lemma LastLost(x: seq<int>, s: seq<int>, k: nat)
    requires k < |s| == |x|
    requires forall i | 0 <= i <= k :: x[i] == s[i]
    requires forall i | k < i < |s| :: x[i] == s[i - 1]
    ensures x == s[..k + 1] + s[k..|s| - 1]
  {
  }

  /** Insert into a nonempty set with room for one more. */
  method InsertInto(a: array<int>, n: nat, elem: int) returns (m: nat)
    requires 0 < n < a.Length && Sorted(a[..n])
    modifies a
    ensures m <= a.Length && a[..m] == Inserted(old(a[..n]), elem)
  {
    ghost var s := a[..n];
    InsertedCases(s, elem);
    hide Inserted, LessEq, Sorted;
    var idx := ShiftAbove(a, n, elem);
    if idx > 0 && a[idx - 1] == elem {
      m := n;
      if idx < n { LastLost(a[..n], s, idx); }
    } else {
      a[idx] := elem;
      m := n + 1;
      OneMore(a[..m], s, idx, elem);
    }
  }

  /** Shift everything above `at` down by one. */
  method ShiftDown(a: array<int>, n: nat, at: nat)
    requires at < n <= a.Length
    modifies a
    ensures a[..n - 1] == old(a[..at]) + old(a[at + 1..n])
  {
    var idx := at;
    while idx < n - 1
      invariant at <= idx <= n - 1
      invariant forall i | 0 <= i < at :: a[i] == old(a[i])
      invariant forall i | at <= i < idx :: a[i] == old(a[i + 1])
      invariant forall i | idx < i < n :: a[i] == old(a[i])
    {
      a[idx] := a[idx + 1];
      idx := idx + 1;
    }
  }

  /** Below `idx` everything is less than `e`; at `idx` it is not, unless `idx` is the last. */
  lemma OnlyThere(s: seq<int>, idx: nat, e: int)
    requires Sorted(s) && idx < |s| && (forall i | 0 <= i < idx :: s[i] < e) && (idx == |s| - 1 || s[idx] >= e)
    ensures e in s <==> s[idx] == e
  {
  }

  class NodeSet {
    var nelem: nat
    var elems: array<int>  // `alloc` is its length

    ghost predicate Valid()
      reads this, elems
    {
      nelem <= elems.Length && Sorted(elems[..nelem])
    }

    ghost function Contents(): seq<int>
      reads this, elems
      requires nelem <= elems.Length
    {
      elems[..nelem]
    }

    /** re_node_set_init_empty / re_node_set_alloc */
    constructor (alloc: nat)
      ensures Valid() && Contents() == [] && elems.Length == alloc && fresh(elems)
    {
      nelem := 0;
      elems := new int[alloc];
    }

    /** realloc: a larger buffer whose first part is the old one. */
    method Grow(alloc: nat)
      requires nelem <= elems.Length <= alloc
      modifies this`elems
      ensures elems.Length == alloc && fresh(elems) && elems[..nelem] == old(elems[..nelem])
    {
      var a := new int[alloc];
      forall i | 0 <= i < elems.Length { a[i] := elems[i]; }
      elems := a;
    }

    /** re_node_set_merge: the union with `src`, in place. */
    method Merge(src: NodeSet?)
      requires Valid() && (src != null ==> src.Valid() && src != this && src.elems != elems)
      modifies this, elems
      ensures Valid() && (elems == old(elems) || fresh(elems))
      ensures forall x :: x in Contents() <==> x in old(Contents()) || (src != null && x in old(src.Contents()))
    {
      hide Sorted;
      if src == null || src.nelem == 0 { return; }
      ghost var c, d := Contents(), src.Contents();
      if elems.Length < 2 * src.nelem + nelem {
        Grow(2 * (src.nelem + elems.Length));
      }
      if nelem == 0 {
        nelem := src.nelem;
        forall i | 0 <= i < src.nelem { elems[i] := src.elems[i]; }
        assert Contents() == d;
        return;
      }
      assert elems[..nelem] == c && src.elems[..src.nelem] == d;
      var top := nelem + 2 * src.nelem;
      var sbase := CollectNew(elems, nelem, src.elems, src.nelem, top);
      FoldScratch(elems, nelem, sbase, top);
      nelem := nelem + (top - sbase);
    }

    /** re_node_set_add_intersect: add the elements common to `src1` and `src2`, in place. */
    method AddIntersect(src1: NodeSet, src2: NodeSet)
      requires Valid() && src1.Valid() && src2.Valid()
      requires src1 != this && src2 != this && src1.elems != elems && src2.elems != elems
      modifies this, elems
      ensures Valid() && (elems == old(elems) || fresh(elems))
      ensures forall x :: x in Contents() <==>
        x in old(Contents()) || (x in old(src1.Contents()) && x in old(src2.Contents()))
    {
      hide Sorted;
      if src1.nelem == 0 || src2.nelem == 0 { return; }
      if src1.nelem + src2.nelem + nelem > elems.Length {
        Grow(src1.nelem + src2.nelem + elems.Length);
      }
      var top := nelem + src1.nelem + src2.nelem;
      var sbase := CollectCommon(elems, nelem, src1.elems, src1.nelem, src2.elems, src2.nelem, top);
      FoldScratch(elems, nelem, sbase, top);
      nelem := nelem + (top - sbase);
    }

    /** re_node_set_insert */
    method Insert(elem: int)
      requires Valid()
      modifies this, elems
      ensures nelem <= elems.Length && (elems == old(elems) || fresh(elems))
      ensures Contents() == Inserted(old(Contents()), elem)
    {
      InsertedCases(Contents(), elem);
      if elems.Length == 0 {
        elems := new int[1];
        elems[0] := elem;
        nelem := 1;
      } else if nelem == 0 {
        elems[0] := elem;
        nelem := 1;
      } else {
        if elems.Length == nelem {
          Grow(elems.Length * 2);
        }
        nelem := InsertInto(elems, nelem, elem);
      }
    }

    /** re_node_set_insert_last */
    method InsertLast(elem: int)
      requires nelem <= elems.Length
      modifies this, elems
      ensures nelem <= elems.Length && (elems == old(elems) || fresh(elems))
      ensures Contents() == old(Contents()) + [elem]
      ensures old(Valid()) && (forall x | x in old(Contents()) :: x < elem) ==> Valid()
    {
      ghost var s := Contents();
      if elems.Length == nelem {
        Grow((elems.Length + 1) * 2);
      }
      elems[nelem] := elem;
      nelem := nelem + 1;
      assert elems[..nelem] == s + [elem];
      assert forall i | 0 <= i < |s| :: s[i] in s;
    }

    /** re_node_set_contains: one more than the index of the element, or 0. */
    method Contains(elem: int) returns (at: nat)
      requires Valid()
      ensures at > 0 ==> at <= nelem && Contents()[at - 1] == elem
      ensures at == 0 <==> elem !in Contents()
    {
      if nelem <= 0 { return 0; }
      var idx, right := 0, nelem - 1;
      while idx < right
        invariant 0 <= idx <= right < nelem
        invariant forall i | 0 <= i < idx :: elems[..nelem][i] < elem
        invariant forall i | right < i < nelem :: elem < elems[..nelem][i] || elems[..nelem][right] >= elem
        invariant right == nelem - 1 || elems[..nelem][right] >= elem
      {
        var mid := (idx + right) / 2;
        if elems[mid] < elem {
          idx := mid + 1;
        } else {
          right := mid;
        }
      }
      at := if elems[idx] == elem then idx + 1 else 0;
      OnlyThere(Contents(), idx, elem);
    }

    /** re_node_set_remove_at */
    method RemoveAt(at: int)
      requires Valid()
      modifies this`nelem, elems
      ensures Valid()
      ensures Contents() == if 0 <= at < old(nelem) then old(Contents())[..at] + old(Contents())[at + 1..] else old(Contents())
    {
      if at < 0 || at >= nelem { return; }
      ghost var s := Contents();
      ShiftDown(elems, nelem, at);
      nelem := nelem - 1;
      assert Contents() == s[..at] + s[at + 1..];
    }

    /** re_node_set_compare */
    method Compare(other: NodeSet?) returns (same: bool)
      requires nelem <= elems.Length && (other != null ==> other.nelem <= other.elems.Length)
      ensures same <==> other != null && Contents() == other.Contents()
    {
      if other == null || nelem != other.nelem { return false; }
      var i := nelem;
      while i > 0
        invariant 0 <= i <= nelem == other.nelem
        invariant forall k | i <= k < nelem :: elems[k] == other.elems[k]
      {
        i := i - 1;
        if elems[i] != other.elems[i] {
          assert Contents()[i] != other.Contents()[i];
          return false;
        }
      }
      return true;
    }
  }
}
