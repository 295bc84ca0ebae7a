/** exchange: swap two adjacent blocks of argv in place. */
module ArgvExchange {

  /** Swap the blocks of `len` elements at `i` and at `j`. */
  method SwapBlocks<T>(a: array<T>, i: nat, j: nat, len: nat)
    requires i + len <= j && j + len <= a.Length
    modifies a
    ensures a[..] == Swapped(old(a[..]), i, j, len)
  {
    ghost var s := a[..];
    var k := 0;
    while k < len
      invariant 0 <= k <= len
      invariant forall x | i <= x < i + k :: a[x] == s[x - i + j]
      invariant forall x | j <= x < j + k :: a[x] == s[x - j + i]
      invariant forall x | 0 <= x < a.Length && !(i <= x < i + k) && !(j <= x < j + k) :: a[x] == s[x]
    {
      a[i + k], a[j + k] := a[j + k], a[i + k];
      k := k + 1;
    }
    SwappedAt(s, a[..], i, j, len);
  }

  ghost function Swapped<T>(s: seq<T>, i: nat, j: nat, len: nat): seq<T>
    requires i + len <= j && j + len <= |s|
  {
    s[..i] + s[j..j + len] + s[i + len..j] + s[i..i + len] + s[j + len..]
  }

  lemma SwappedAt<T>(s: seq<T>, r: seq<T>, i: nat, j: nat, len: nat)
    requires i + len <= j && j + len <= |s| == |r|
    requires forall x | i <= x < i + len :: r[x] == s[x - i + j]
    requires forall x | j <= x < j + len :: r[x] == s[x - j + i]
    requires forall x | 0 <= x < |s| && !(i <= x < i + len) && !(j <= x < j + len) :: r[x] == s[x]
    ensures r == Swapped(s, i, j, len)
  {
    assert r[..i] == s[..i];
    assert r[i + len..j] == s[i + len..j];
    assert r[j + len..] == s[j + len..];
    assert r[i..i + len] == s[j..j + len];
    assert r[j..j + len] == s[i..i + len];
    assert r[..j] == r[..i] + r[i..i + len] + r[i + len..j];
    assert r[j..] == r[j..j + len] + r[j + len..];
    assert r == r[..j] + r[j..];
  }

  /** The two adjacent blocks [bottom, middle) and [middle, top), exchanged. */
  ghost function Rotated<T>(s: seq<T>, bottom: nat, middle: nat, top: nat): seq<T>
    requires bottom <= middle <= top <= |s|
  {
    s[..bottom] + s[middle..top] + s[bottom..middle] + s[top..]
  }

  /** With the short bottom block moved to its place at the far end, rotating what is left
      gives the same result. */
  lemma BottomMoved<T>(s: seq<T>, bottom: nat, middle: nat, top: nat)
    requires bottom <= middle <= top <= |s| && middle - bottom <= top - middle
    ensures Rotated(Swapped(s, bottom, top - (middle - bottom), middle - bottom), bottom, middle, top - (middle - bottom))
      == Rotated(s, bottom, middle, top)
  {
    var len := middle - bottom;
    var r := Swapped(s, bottom, top - len, len);
    Five(s[..bottom], s[top - len..top], s[middle..top - len], s[bottom..middle], s[top..]);
    assert r == s[..bottom] + s[top - len..top] + s[middle..top - len] + s[bottom..middle] + s[top..];
    assert s[middle..top] == s[middle..top - len] + s[top - len..top];
  }

  lemma Five<T>(a: seq<T>, b: seq<T>, c: seq<T>, d: seq<T>, e: seq<T>)
    ensures var r := a + b + c + d + e; var i, j, k := |a|, |a| + |b|, |a| + |b| + |c|;
      r[..i] == a && r[i..j] == b && r[j..k] == c && r[k..] == d + e
  {
  }

  lemma TopMoved<T>(s: seq<T>, bottom: nat, middle: nat, top: nat)
    requires bottom <= middle <= top <= |s| && top - middle <= middle - bottom
    ensures Rotated(Swapped(s, bottom, middle, top - middle), bottom + (top - middle), middle, top)
      == Rotated(s, bottom, middle, top)
  {
    var len := top - middle;
    var r := Swapped(s, bottom, middle, len);
    assert r[..bottom + len] == s[..bottom] + s[middle..top] && r[bottom + len..middle] == s[bottom + len..middle];
    assert r[middle..top] == s[bottom..bottom + len] && r[top..] == s[top..];
    assert s[bottom..middle] == s[bottom..bottom + len] + s[bottom + len..middle];
  }

  /** The loop of exchange. */
  method Exchange<T>(argv: array<T>, first: nat, last: nat, optind: nat)
    requires first <= last <= optind <= argv.Length
    modifies argv
    ensures argv[..] == Rotated(old(argv[..]), first, last, optind)
  {
    hide Swapped, Rotated;
    var bottom: nat, middle, top := first, last, optind;
    ghost var goal := Rotated(argv[..], first, last, optind);
    while top > middle && middle > bottom
      invariant bottom <= middle <= top <= argv.Length
      invariant Rotated(argv[..], bottom, middle, top) == goal
      decreases top - bottom
    {
      if top - middle > middle - bottom {
        BottomMoved(argv[..], bottom, middle, top);
        SwapBlocks(argv, bottom, top - (middle - bottom), middle - bottom);
        top := top - (middle - bottom);
      } else {
        TopMoved(argv[..], bottom, middle, top);
        SwapBlocks(argv, bottom, middle, top - middle);
        bottom := bottom + (top - middle);
      }
    }
    RotatedDone(argv[..], bottom, middle, top);
  }

  lemma RotatedDone<T>(s: seq<T>, bottom: nat, middle: nat, top: nat)
    requires bottom <= middle <= top <= |s| && (bottom == middle || middle == top)
    ensures Rotated(s, bottom, middle, top) == s
  {
  }
}
