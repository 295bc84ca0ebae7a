/** INT_BITS_STRLEN_BOUND: how many decimal digits a number of b bits can have. */
module DigitBound {

  // ----- Powers -----

  function Pow(b: nat, n: nat): nat { if n == 0 then 1 else b * Pow(b, n - 1) }

  lemma {:induction false} PowPositive(b: nat, n: nat)
    requires b > 0
    ensures Pow(b, n) > 0
  {
    if n > 0 {
      PowPositive(b, n - 1);
      Times(1, b, 1, Pow(b, n - 1));
    }
  }

  /** Products of greater factors. */
  lemma Times(x: nat, x': nat, y: nat, y': nat)
    requires x <= x' && y <= y'
    ensures x * y <= x' * y'
    ensures x < x' && 0 < y' ==> x * y < x' * y'
  {
    assert x' * y' - x * y == (x' - x) * y' + x * (y' - y);
    assert (x' - x) * y' >= 0 && x * (y' - y) >= 0;
    if x < x' && 0 < y' { assert (x' - x) * y' > 0; }
  }

  lemma {:induction false} PowAdd(b: nat, m: nat, n: nat)
    ensures Pow(b, m + n) == Pow(b, m) * Pow(b, n)
    decreases m
  {
    if m > 0 {
      PowAdd(b, m - 1, n);
      assert b * (Pow(b, m - 1) * Pow(b, n)) == b * Pow(b, m - 1) * Pow(b, n);
    }
  }

  lemma {:induction false} PowProduct(a: nat, b: nat, n: nat)
    ensures Pow(a * b, n) == Pow(a, n) * Pow(b, n)
  {
    if n > 0 {
      PowProduct(a, b, n - 1);
      var x, y := Pow(a, n - 1), Pow(b, n - 1);
      assert (a * b) * (x * y) == (a * x) * (b * y) by { Exchange(a, b, x, y); }
    }
  }

  lemma Exchange(a: nat, b: nat, x: nat, y: nat)
    ensures (a * b) * (x * y) == (a * x) * (b * y)
  {
    assert (a * b) * (x * y) == a * (b * (x * y));
    assert b * (x * y) == x * (b * y);
    assert a * (x * (b * y)) == (a * x) * (b * y);
  }

  lemma {:induction false} PowPow(b: nat, m: nat, n: nat)
    ensures Pow(Pow(b, m), n) == Pow(b, m * n)
    decreases n
  {
    if n > 0 {
      PowPow(b, m, n - 1);
      PowAdd(b, m, m * (n - 1));
      assert m + m * (n - 1) == m * n;
    } else {
      assert m * n == 0;
    }
  }

  lemma {:induction false} PowMonotone(x: nat, y: nat, n: nat)
    requires x <= y
    ensures Pow(x, n) <= Pow(y, n)
    ensures x < y && n > 0 ==> Pow(x, n) < Pow(y, n)
  {
    if n > 0 {
      PowMonotone(x, y, n - 1);
      if x < y { PowPositive(y, n - 1); }
      Times(x, y, Pow(x, n - 1), Pow(y, n - 1));
    }
  }

  lemma {:induction false} PowGrows(b: nat, m: nat, n: nat)
    requires b > 0 && m <= n
    ensures Pow(b, m) <= Pow(b, n)
    decreases n - m
  {
    if m < n {
      PowGrows(b, m, n - 1);
      Times(1, b, Pow(b, n - 1), Pow(b, n - 1));
    }
  }

  /** Taking roots. */
  lemma RootLess(x: nat, y: nat, n: nat)
    requires Pow(x, n) < Pow(y, n)
    ensures x < y
  {
    if y <= x { PowMonotone(y, x, n); }
  }

  // ----- Three comparisons of powers of 2 and of 5 -----

  /** m 2^e <= 5^k, and the reverse. */
  ghost predicate AtMost(m: nat, e: nat, k: nat) { m * Pow(2, e) <= Pow(5, k) }

  ghost predicate AtLeast(m: nat, e: nat, k: nat) { Pow(5, k) <= m * Pow(2, e) }

  lemma Five(odd: nat)
    requires odd <= 1
    ensures Pow(5, odd) == if odd == 1 then 5 else 1
  {
  }

  lemma DoubledPowers(m: nat, e: nat, k: nat, odd: nat)
    requires odd <= 1
    ensures Pow(5, 2 * k + odd) == Pow(5, k) * Pow(5, k) * (if odd == 1 then 5 else 1)
    ensures m * Pow(2, e) * (m * Pow(2, e)) * (if odd == 1 then 5 else 1) == m * m * (if odd == 1 then 5 else 1) * Pow(2, 2 * e)
  {
    PowAdd(5, k + k, odd);
    PowAdd(5, k, k);
    PowAdd(2, e, e);
    Five(odd);
    Exchange(m, Pow(2, e), m, Pow(2, e));
    var p, f := Pow(2, e) * Pow(2, e), if odd == 1 then 5 else 1;
    assert m * m * p * f == m * m * f * p;
  }

  /** Squaring such a bound, with one more factor 5 if `odd`, and rounding its mantissa. */
  lemma Squared(m: nat, e: nat, k: nat, odd: nat, shift: nat, m': nat)
    requires odd <= 1
    ensures AtMost(m, e, k) && m' * Pow(2, shift) <= m * m * (if odd == 1 then 5 else 1) ==> AtMost(m', 2 * e + shift, 2 * k + odd)
    ensures AtLeast(m, e, k) && m' * Pow(2, shift) >= m * m * (if odd == 1 then 5 else 1) ==> AtLeast(m', 2 * e + shift, 2 * k + odd)
  {
    hide Pow;
    var f := if odd == 1 then 5 else 1;
    DoubledPowers(m, e, k, odd);
    PowAdd(2, shift, 2 * e);
    Regroup(m', Pow(2, shift), Pow(2, 2 * e));
    SquaredNumbers(m * Pow(2, e), Pow(5, k), f, m * m * f, m' * Pow(2, shift), Pow(2, 2 * e));
    SquaredNumbers(Pow(5, k), m * Pow(2, e), f, m' * Pow(2, shift), m * m * f, Pow(2, 2 * e));
  }

  lemma Regroup(x: nat, y: nat, z: nat)
    ensures x * (y * z) == x * y * z
  {
  }

  lemma SquaredNumbers(x: nat, y: nat, f: nat, u: nat, v: nat, p: nat)
    ensures x <= y ==> x * x * f <= y * y * f
    ensures v <= u ==> v * p <= u * p
  {
    if x <= y { Times(x, y, x, y); Times(x * x, y * y, f, f); }
    if v <= u { Times(v, u, p, p); }
  }

  lemma Shifts()
    ensures Pow(2, 0) == 1 && Pow(2, 2) == 4 && Pow(2, 7) == 128 && Pow(2, 16) == 0x1_0000
    ensures Pow(2, 39) == 0x80_0000_0000 && Pow(2, 40) == 0x100_0000_0000 && Pow(2, 41) == 0x200_0000_0000
    ensures Pow(2, 42) == 0x400_0000_0000 && Pow(2, 43) == 0x800_0000_0000
  {
    PowAdd(2, 4, 3);
    PowAdd(2, 4, 4);
    PowAdd(2, 8, 8);
    PowAdd(2, 16, 16);
    PowAdd(2, 32, 7);
  }

  lemma Start()
    ensures AtMost(5, 0, 1) && AtLeast(5, 0, 1)
  {
  }

  /** From 2^t < 5^k to 2^(t + k) < 10^k. */
  lemma Finish(m: nat, e: nat, s: nat, k: nat, b: nat)
    requires AtMost(m, e, k) && Pow(2, s) < m && b == e + s + k
    ensures Pow(2, b) < Pow(10, k)
  {
    PowAdd(2, s, e);
    PowPositive(2, e);
    PowPositive(2, k);
    Times(Pow(2, s), m, Pow(2, e), Pow(2, e));
    PowAdd(2, e + s, k);
    PowProduct(5, 2, k);
    Times(Pow(2, e + s), Pow(5, k), Pow(2, k), Pow(2, k));
  }

  lemma FinishBelow(m: nat, e: nat, s: nat, k: nat, b: nat)
    requires AtLeast(m, e, k) && m < Pow(2, s) && b == e + s + k
    ensures Pow(10, k) < Pow(2, b)
  {
    PowAdd(2, s, e);
    PowPositive(2, e);
    PowPositive(2, k);
    Times(m, Pow(2, s), Pow(2, e), Pow(2, e));
    PowAdd(2, e + s, k);
    PowProduct(5, 2, k);
    Times(Pow(5, k), Pow(2, e + s), Pow(2, k), Pow(2, k));
  }

  /** 2^485 < 10^146, or log10 (2) < 146/485. */
  lemma Log2()
    ensures Pow(2, 485) < Pow(10, 146)
  {
    hide Pow, AtMost, AtLeast;
    Shifts();
    Start();
    Squared(5, 0, 1, 0, 0, 25);
    Squared(25, 0, 2, 0, 0, 625);
    Squared(625, 0, 4, 1, 0, 1953125);
    Squared(1953125, 0, 9, 0, 2, 953674316406);
    Squared(953674316406, 2, 18, 0, 40, 827180612552);
    Squared(827180612552, 44, 36, 1, 42, 777876909730);
    Squared(777876909730, 130, 73, 0, 40, 550328410728);
    Finish(550328410728, 300, 39, 146, 485);
  }

  /** 10^643 < 2^2136 */
  lemma Log2Below()
    ensures Pow(10, 643) < Pow(2, 2136)
  {
    hide Pow, AtMost, AtLeast;
    Shifts();
    Start();
    Squared(5, 0, 1, 0, 0, 25);
    Squared(25, 0, 2, 1, 0, 3125);
    Squared(3125, 0, 5, 0, 0, 9765625);
    Squared(9765625, 0, 10, 0, 7, 745058059693);
    Squared(745058059693, 7, 20, 0, 39, 1009741958685);
    Squared(1009741958685, 53, 40, 0, 40, 927301537676);
    Squared(927301537676, 146, 80, 0, 40, 782063709063);
    Squared(782063709063, 332, 160, 1, 42, 695335580797);
    Squared(695335580797, 706, 321, 1, 41, 1099332552991);
    FinishBelow(1099332552991, 1453, 40, 643, 2136);
  }

  /** 2^2621 < 10^789 */
  lemma Log2Above()
    ensures Pow(2, 2621) < Pow(10, 789)
  {
    hide Pow, AtMost, AtLeast;
    Shifts();
    Start();
    Squared(5, 0, 1, 1, 0, 125);
    Squared(125, 0, 3, 0, 0, 15625);
    Squared(15625, 0, 6, 0, 0, 244140625);
    Squared(244140625, 0, 12, 0, 16, 909494701772);
    Squared(909494701772, 16, 24, 1, 42, 940395480655);
    Squared(940395480655, 74, 49, 0, 40, 804305873349);
    Squared(804305873349, 188, 98, 1, 42, 735449177572);
    Squared(735449177572, 418, 197, 0, 39, 983864979919);
    Squared(983864979919, 875, 394, 1, 43, 550238780028);
    Finish(550238780028, 1793, 39, 789, 2621);
  }

  // ----- Digits -----

  /** The number of decimal digits of `n`; 0 has one. */
  function Digits(n: nat): nat { if n < 10 then 1 else 1 + Digits(n / 10) }

  lemma {:induction false} DigitsExact(n: nat, k: nat)
    requires k >= 1
    ensures Digits(n) <= k <==> n < Pow(10, k)
    decreases k
  {
    if k == 1 {
      assert Pow(10, 1) == 10 * Pow(10, 0);
    } else if n < 10 {
      PowGrows(10, 1, k);
      assert Pow(10, 1) == 10 * Pow(10, 0);
    } else {
      DigitsExact(n / 10, k - 1);
    }
  }

  /** INT_BITS_STRLEN_BOUND */
  function Bound(b: nat): nat { (b * 146 + 484) / 485 }

  /** Because 2^485 < 10^146: raising to the power b and taking the 485th root. */
  lemma BelowBound(b: nat)
    requires b >= 1
    ensures Pow(2, b) < Pow(10, Bound(b)) && Bound(b) >= 1
  {
    var c := Bound(b);
    Log2();
    PowMonotone(Pow(2, 485), Pow(10, 146), b);
    PowPow(2, 485, b);
    PowPow(2, b, 485);
    PowPow(10, 146, b);
    PowPow(10, c, 485);
    assert 485 * b == b * 485 && 146 * b <= c * 485;
    PowGrows(10, 146 * b, c * 485);
    RootLess(Pow(2, b), Pow(10, c), 485);
  }

  /** Every unsigned number of b bits has at most INT_BITS_STRLEN_BOUND (b) digits. */
  lemma DigitsBounded(b: nat, n: nat)
    requires b >= 1 && n < Pow(2, b)
    ensures Digits(n) <= Bound(b)
  {
    BelowBound(b);
    DigitsExact(n, Bound(b));
  }

  /** INT_STRLEN_BOUND of a signed type: the digits of any of its values and a sign. */
  lemma SignedBounded(width: nat, n: int)
    requires width >= 2 && 0 <= n + Pow(2, width - 1) && n < Pow(2, width - 1)
    ensures (if n < 0 then 1 + Digits(-n) else Digits(n)) <= Bound(width - 1) + 1
  {
    BelowBound(width - 1);
    DigitsExact(if n < 0 then -n else n, Bound(width - 1));
  }

  /** Because 10^643 < 2^2136 as well, a bound one lower fails for all widths whose multiple
      of 146 leaves a remainder other than 1 modulo 485, and up to 2136 bits for 1. */
  lemma AboveLower(b: nat)
    requires 1 <= b < 2621
    ensures Pow(10, Bound(b) - 1) < Pow(2, b)
  {
    var c := Bound(b) - 1;
    var rest := 146 * b - 485 * c;
    assert 1 <= rest <= 485;
    if rest == 1 { OnlyOnce(b, c); }
    assert 2136 * c <= 643 * b;
    Log2Below();
    PowMonotone(Pow(10, 643), Pow(2, 2136), b);
    PowPow(10, 643, b);
    PowPow(10, c, 2136);
    PowPow(2, 2136, b);
    PowPow(2, b, 2136);
    assert 2136 * b == b * 2136 && c * 2136 <= 643 * b;
    PowGrows(10, c * 2136, 643 * b);
    RootLess(Pow(10, c), Pow(2, b), 2136);
  }

  /** 146 b = 485 c + 1 has the solutions b = 196 + 485 j, c = 59 + 146 j. */
  lemma OnlyOnce(b: nat, c: nat)
    requires 146 * b == 485 * c + 1 && b < 2621
    ensures b <= 2136
  {
  }

  /** The bound is tight for all widths below 2621: the greatest number of b bits has that
      many digits. */
  lemma BoundTight(b: nat)
    requires 1 <= b < 2621
    ensures Pow(2, b) >= 1 && Digits(Pow(2, b) - 1) == Bound(b)
  {
    PowPositive(2, b);
    DigitsBounded(b, Pow(2, b) - 1);
    AboveLower(b);
    if Bound(b) > 1 { DigitsExact(Pow(2, b) - 1, Bound(b) - 1); }
  }

  /** At 2621 it is not: 790 where 789 would do. */
  lemma BoundNotTight()
    ensures Bound(2621) == 790 && forall n: nat | n < Pow(2, 2621) :: Digits(n) <= 789
  {
    Log2Above();
    forall n: nat | n < Pow(2, 2621) ensures Digits(n) <= 789 { DigitsExact(n, 789); }
  }
}
