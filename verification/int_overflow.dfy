/** The overflow predicates of intprops.h and intprops-internal.h and the wrapping operations
    built on them. */
module IntOverflow {
  import opened CIntegers

  // ----- The type of the result -----

  /** T's extrema as the macros get them: integer constants of T's promoted type, except
      that the minimum of an unsigned type is a plain 0. */
  function TMin(t: IntType): CInt { if t.signed then CInt(Promote(t), Min(t)) else Int(0) }

  function TMax(t: IntType): CInt { CInt(Promote(t), Max(t)) }

  // ----- ADD -----

  function AddCheck(a: CInt, b: CInt, tmin: CInt, tmax: CInt): CInt
    requires a.CInt? && b.CInt? && tmin.CInt? && tmax.CInt?
  {
    If(Less(b, Int(0)),
       Or(SumBelow(a, b, tmin), SumAboveB(a, b, tmax)),
       If(Less(a, Int(0)),
          Or(SumBelow(b, a, tmin), SumAboveA(a, b, tmax)),
          Or(Less(tmax, b), Less(Minus(tmax, b), a))))
  }

  /** For b < 0: whether a + b is below the minimum. */
  function SumBelow(a: CInt, b: CInt, tmin: CInt): CInt
    requires a.CInt? && b.CInt? && tmin.CInt?
  {
    If(tmin,
       And(Or(Signed(Common(a.ty, Common(tmin.ty, b.ty))), Less(b, tmin)), Less(a, Minus(tmin, b))),
       AtMost(a, Minus(Int(-1), b)))
  }

  /** For b < 0, and for a < 0: whether a + b is above the maximum. */
  function SumAboveB(a: CInt, b: CInt, tmax: CInt): CInt
    requires a.CInt? && b.CInt? && tmax.CInt?
  {
    And(If(Signed(a.ty), AtMost(Int(0), a), Less(tmax, a)), Less(tmax, Plus(a, b)))
  }

  function SumAboveA(a: CInt, b: CInt, tmax: CInt): CInt
    requires a.CInt? && b.CInt? && tmax.CInt?
  {
    And(Or(Signed(Common(a.ty, b.ty)), Less(tmax, b)), Less(tmax, Plus(a, b)))
  }

  /** The operands of a check: a result type, and two values of promoted types. */
  predicate Operands(a: CInt, b: CInt, t: IntType) {
    IsValue(a) && IsValue(b) && a.ty.width >= INT.width && b.ty.width >= INT.width && IsType(t)
  }

  /** A negative signed and an unsigned operand whose sum is negative and fits the result
      type, although the unsigned one by itself does not. */
  predicate FalseAlarm(s: CInt, u: CInt, t: IntType)
    requires s.CInt? && u.CInt?
  {
    && s.ty.signed && !u.ty.signed && s.ty.width <= u.ty.width && s.val < 0
    && t.signed && u.val > Max(t) && Min(t) <= s.val + u.val < 0
  }

  /** What is known about the magnitudes of two types. */
  lemma Widths(t: IntType, u: IntType)
    ensures t.width == u.width ==> Half(t) == Half(u)
    ensures 1 <= t.width < u.width ==> 2 * Half(t) <= Half(u)
  {
    if 1 <= t.width < u.width { Pow2Grows(t.width - 1, u.width - 1); }
  }

  lemma AllWidths(t: IntType, u: IntType, v: IntType)
    ensures t.width == u.width ==> Half(t) == Half(u)
    ensures t.width == v.width ==> Half(t) == Half(v)
    ensures u.width == v.width ==> Half(u) == Half(v)
    ensures 1 <= t.width < u.width ==> 2 * Half(t) <= Half(u)
    ensures 1 <= u.width < t.width ==> 2 * Half(u) <= Half(t)
    ensures 1 <= t.width < v.width ==> 2 * Half(t) <= Half(v)
    ensures 1 <= v.width < t.width ==> 2 * Half(v) <= Half(t)
    ensures 1 <= u.width < v.width ==> 2 * Half(u) <= Half(v)
    ensures 1 <= v.width < u.width ==> 2 * Half(v) <= Half(u)
  {
    Widths(t, u); Widths(u, t); Widths(t, v); Widths(v, t); Widths(u, v); Widths(v, u);
  }

  /** Operations on nonnegative operands do not depend on the types. */
  lemma NonnegativeOps(x: CInt, y: CInt)
    requires IsValue(x) && IsValue(y) && 0 <= x.val && 0 <= y.val
    ensures Less(x, y) == Truth(x.val < y.val) && AtMost(x, y) == Truth(x.val <= y.val)
    ensures y.val <= x.val ==> Minus(x, y) == CInt(Common(x.ty, y.ty), x.val - y.val) && IsValue(Minus(x, y))
  {
    hide Half;
    Widths(x.ty, y.ty);
    Widths(y.ty, x.ty);
  }

  /** Operations in a signed type are those of arithmetic, where the result fits. */
  lemma SignedOps(x: CInt, y: CInt)
    requires IsValue(x) && IsValue(y) && Common(x.ty, y.ty).signed
    ensures Less(x, y) == Truth(x.val < y.val)
    ensures Fits(x.ty, x.val - y.val) || Fits(y.ty, x.val - y.val) ==>
      IsValue(Minus(x, y)) && Minus(x, y) == CInt(Common(x.ty, y.ty), x.val - y.val)
  {
    hide Half;
    Widths(x.ty, y.ty);
    Widths(y.ty, x.ty);
  }

  /** A sum that is not negative, or of a signed type, is exact. */
  lemma PlusDown(x: CInt, y: CInt)
    requires IsValue(x) && IsValue(y) && y.val < 0 <= x.val
    ensures 0 <= x.val + y.val || Common(x.ty, y.ty).signed ==>
      Plus(x, y) == CInt(Common(x.ty, y.ty), x.val + y.val) && IsValue(Plus(x, y))
    ensures Plus(x, y).CInt?
  {
    hide Half;
    Widths(x.ty, y.ty);
    Widths(y.ty, x.ty);
  }

  /** The extrema are values of their types. */
  lemma ExtremaFit(t: IntType)
    requires IsType(t)
    ensures IsValue(TMin(t)) && IsValue(TMax(t)) && TMin(t).val == Min(t) <= 0 && TMax(t).val == Max(t) && Max(t) >= 1
    ensures t.signed ==> Max(t) == -1 - Min(t)
    ensures TMin(t).ty.signed && (TMax(t).ty.signed <==> t.signed || t.width < INT.width)
    ensures Fits(INT, -1) && Fits(INT, 0) && Fits(INT, 1)
  {
    hide Half, Pow2;
    HalfTwo(t);
    HalfTwo(INT);
    MinFits(t);
    MaxFits(t);
    hide TMin, TMax, IsValue;
  }

  lemma MinFits(t: IntType)
    requires IsType(t)
    ensures IsValue(TMin(t)) && TMin(t).val == Min(t) && TMin(t).ty.signed
  {
    hide Half;
    Widths(t, INT);
    HalfTwo(INT);
  }

  lemma MaxFits(t: IntType)
    requires IsType(t)
    ensures IsValue(TMax(t)) && TMax(t).val == Max(t) && (TMax(t).ty.signed <==> t.signed || t.width < INT.width)
  {
    hide Half;
    Widths(t, INT);
    HalfTwo(t);
  }

  lemma HalfTwo(t: IntType)
    requires IsType(t)
    ensures Half(t) >= 2
  {
    Pow2Grows(0, t.width - 1);
  }

  lemma SumBelowSigned(a: CInt, b: CInt, t: IntType)
    requires Operands(a, b, t) && b.val < 0 && t.signed
    ensures var r := SumBelow(a, b, TMin(t)); r.CInt? && (r.val != 0 <==> a.val + b.val < Min(t))
  {
    hide Half;
    AllWidths(a.ty, b.ty, t);
    AllWidths(a.ty, b.ty, INT);
    Widths(t, INT);
  }

  lemma SumBelowUnsigned(a: CInt, b: CInt, t: IntType)
    requires Operands(a, b, t) && b.val < 0 && !t.signed
    ensures var r := SumBelow(a, b, TMin(t)); r.CInt? && (r.val != 0 <==> a.val + b.val < Min(t))
  {
    hide Half;
    AllWidths(a.ty, b.ty, t);
    AllWidths(a.ty, b.ty, INT);
    Widths(t, INT);
  }

  lemma SumBelowExact(a: CInt, b: CInt, t: IntType)
    requires Operands(a, b, t) && b.val < 0
    ensures var r := SumBelow(a, b, TMin(t)); r.CInt? && (r.val != 0 <==> a.val + b.val < Min(t))
  {
    hide Half, SumBelow;
    if t.signed { SumBelowSigned(a, b, t); } else { SumBelowUnsigned(a, b, t); }
  }

  lemma SumAboveBSignedToSigned(a: CInt, b: CInt, t: IntType)
    requires Operands(a, b, t) && b.val < 0 && a.ty.signed && t.signed
    ensures var r := SumAboveB(a, b, TMax(t));
      && r.CInt? && (a.val + b.val > Max(t) || FalseAlarm(b, a, t) ==> r.val != 0)
      && (r.val != 0 ==> !Fits(t, a.val + b.val) || FalseAlarm(b, a, t))
  {
    hide Half;
    AllWidths(a.ty, b.ty, t);
    AllWidths(a.ty, b.ty, INT);
    Widths(t, INT);
  }

  lemma SumAboveBSignedToUnsigned(a: CInt, b: CInt, t: IntType)
    requires Operands(a, b, t) && b.val < 0 && a.ty.signed && !t.signed
    ensures var r := SumAboveB(a, b, TMax(t));
      && r.CInt? && (a.val + b.val > Max(t) || FalseAlarm(b, a, t) ==> r.val != 0)
      && (r.val != 0 ==> !Fits(t, a.val + b.val) || FalseAlarm(b, a, t))
  {
    hide Half;
    AllWidths(a.ty, b.ty, t);
    AllWidths(a.ty, b.ty, INT);
    Widths(t, INT);
  }

  lemma SumAboveBExactSigned(a: CInt, b: CInt, t: IntType)
    requires Operands(a, b, t) && b.val < 0 && a.ty.signed
    ensures var r := SumAboveB(a, b, TMax(t));
      && r.CInt? && (a.val + b.val > Max(t) || FalseAlarm(b, a, t) ==> r.val != 0)
      && (r.val != 0 ==> !Fits(t, a.val + b.val) || FalseAlarm(b, a, t))
  {
    hide Half, SumAboveB;
    if t.signed { SumAboveBSignedToSigned(a, b, t); } else { SumAboveBSignedToUnsigned(a, b, t); }
  }

  lemma SumAboveBNarrow(a: CInt, b: CInt, t: IntType)
    requires Operands(a, b, t) && b.val < 0 && !a.ty.signed && t.signed && a.ty.width < b.ty.width
    ensures var r := SumAboveB(a, b, TMax(t));
      && r.CInt? && (a.val + b.val > Max(t) || FalseAlarm(b, a, t) ==> r.val != 0)
      && (r.val != 0 ==> !Fits(t, a.val + b.val) || FalseAlarm(b, a, t))
  {
    hide Half;
    AllWidths(a.ty, b.ty, t);
    AllWidths(a.ty, b.ty, INT);
    Widths(t, INT);
  }

  lemma SumAboveBWide(a: CInt, b: CInt, t: IntType)
    requires Operands(a, b, t) && b.val < 0 && !a.ty.signed && t.signed && a.ty.width >= b.ty.width
    ensures var r := SumAboveB(a, b, TMax(t));
      && r.CInt? && (a.val + b.val > Max(t) || FalseAlarm(b, a, t) ==> r.val != 0)
      && (r.val != 0 ==> !Fits(t, a.val + b.val) || FalseAlarm(b, a, t))
  {
    hide Half;
    AllWidths(a.ty, b.ty, t);
    AllWidths(a.ty, b.ty, INT);
    Widths(t, INT);
  }

  lemma SumAboveBExactToSigned(a: CInt, b: CInt, t: IntType)
    requires Operands(a, b, t) && b.val < 0 && !a.ty.signed && t.signed
    ensures var r := SumAboveB(a, b, TMax(t));
      && r.CInt? && (a.val + b.val > Max(t) || FalseAlarm(b, a, t) ==> r.val != 0)
      && (r.val != 0 ==> !Fits(t, a.val + b.val) || FalseAlarm(b, a, t))
  {
    hide Half, SumAboveB;
    if a.ty.width < b.ty.width { SumAboveBNarrow(a, b, t); } else { SumAboveBWide(a, b, t); }
  }

  lemma SumAboveBExactToUnsigned(a: CInt, b: CInt, t: IntType)
    requires Operands(a, b, t) && b.val < 0 && !a.ty.signed && !t.signed
    ensures var r := SumAboveB(a, b, TMax(t));
      && r.CInt? && (a.val + b.val > Max(t) || FalseAlarm(b, a, t) ==> r.val != 0)
      && (r.val != 0 ==> !Fits(t, a.val + b.val) || FalseAlarm(b, a, t))
  {
    hide Half;
    AllWidths(a.ty, b.ty, t);
    AllWidths(a.ty, b.ty, INT);
    Widths(t, INT);
  }

  lemma SumAboveBExact(a: CInt, b: CInt, t: IntType)
    requires Operands(a, b, t) && b.val < 0
    ensures var r := SumAboveB(a, b, TMax(t));
      && r.CInt? && (a.val + b.val > Max(t) || FalseAlarm(b, a, t) ==> r.val != 0)
      && (r.val != 0 ==> !Fits(t, a.val + b.val) || FalseAlarm(b, a, t))
  {
    hide Half, SumAboveB;
    if a.ty.signed {
      SumAboveBExactSigned(a, b, t);
    } else if t.signed {
      SumAboveBExactToSigned(a, b, t);
    } else {
      SumAboveBExactToUnsigned(a, b, t);
    }
  }

  lemma SumAboveAExactSigned(a: CInt, b: CInt, t: IntType)
    requires Operands(a, b, t) && a.val < 0 <= b.val && b.ty.signed
    ensures var r := SumAboveA(a, b, TMax(t));
      && r.CInt? && (a.val + b.val > Max(t) || FalseAlarm(a, b, t) ==> r.val != 0)
      && (r.val != 0 ==> !Fits(t, a.val + b.val) || FalseAlarm(a, b, t))
  {
    hide Half;
    AllWidths(a.ty, b.ty, t);
    AllWidths(a.ty, b.ty, INT);
    Widths(t, INT);
  }

  lemma SumAboveANarrow(a: CInt, b: CInt, t: IntType)
    requires Operands(a, b, t) && a.val < 0 <= b.val && !b.ty.signed && t.signed && b.ty.width < a.ty.width
    ensures var r := SumAboveA(a, b, TMax(t));
      && r.CInt? && (a.val + b.val > Max(t) || FalseAlarm(a, b, t) ==> r.val != 0)
      && (r.val != 0 ==> !Fits(t, a.val + b.val) || FalseAlarm(a, b, t))
  {
    hide Half;
    AllWidths(a.ty, b.ty, t);
    AllWidths(a.ty, b.ty, INT);
    Widths(t, INT);
  }

  lemma SumAboveAWide(a: CInt, b: CInt, t: IntType)
    requires Operands(a, b, t) && a.val < 0 <= b.val && !b.ty.signed && t.signed && b.ty.width >= a.ty.width
    ensures var r := SumAboveA(a, b, TMax(t));
      && r.CInt? && (a.val + b.val > Max(t) || FalseAlarm(a, b, t) ==> r.val != 0)
      && (r.val != 0 ==> !Fits(t, a.val + b.val) || FalseAlarm(a, b, t))
  {
    hide Half;
    AllWidths(a.ty, b.ty, t);
    AllWidths(a.ty, b.ty, INT);
    Widths(t, INT);
  }

  lemma SumAboveAExactToSigned(a: CInt, b: CInt, t: IntType)
    requires Operands(a, b, t) && a.val < 0 <= b.val && !b.ty.signed && t.signed
    ensures var r := SumAboveA(a, b, TMax(t));
      && r.CInt? && (a.val + b.val > Max(t) || FalseAlarm(a, b, t) ==> r.val != 0)
      && (r.val != 0 ==> !Fits(t, a.val + b.val) || FalseAlarm(a, b, t))
  {
    hide Half, SumAboveA;
    if b.ty.width < a.ty.width { SumAboveANarrow(a, b, t); } else { SumAboveAWide(a, b, t); }
  }

  lemma SumAboveAExactToUnsigned(a: CInt, b: CInt, t: IntType)
    requires Operands(a, b, t) && a.val < 0 <= b.val && !b.ty.signed && !t.signed
    ensures var r := SumAboveA(a, b, TMax(t));
      && r.CInt? && (a.val + b.val > Max(t) || FalseAlarm(a, b, t) ==> r.val != 0)
      && (r.val != 0 ==> !Fits(t, a.val + b.val) || FalseAlarm(a, b, t))
  {
    hide Half;
    AllWidths(a.ty, b.ty, t);
    AllWidths(a.ty, b.ty, INT);
    Widths(t, INT);
  }

  lemma SumAboveAExact(a: CInt, b: CInt, t: IntType)
    requires Operands(a, b, t) && a.val < 0 <= b.val
    ensures var r := SumAboveA(a, b, TMax(t));
      && r.CInt? && (a.val + b.val > Max(t) || FalseAlarm(a, b, t) ==> r.val != 0)
      && (r.val != 0 ==> !Fits(t, a.val + b.val) || FalseAlarm(a, b, t))
  {
    hide Half, SumAboveA;
    if b.ty.signed {
      SumAboveAExactSigned(a, b, t);
    } else if t.signed {
      SumAboveAExactToSigned(a, b, t);
    } else {
      SumAboveAExactToUnsigned(a, b, t);
    }
  }

  lemma AddNonnegativeExact(a: CInt, b: CInt, t: IntType)
    requires Operands(a, b, t) && 0 <= a.val && 0 <= b.val
    ensures var tmax := TMax(t); var r := Or(Less(tmax, b), Less(Minus(tmax, b), a));
      r.CInt? && (r.val != 0 <==> !Fits(t, a.val + b.val))
  {
    hide Half, Common, Less, Minus, TMax, TMin;
    ExtremaFit(t);
    NonnegativeOps(TMax(t), b);
    if b.val <= Max(t) { NonnegativeOps(Minus(TMax(t), b), a); }
  }

  /** Comparing with the constant 0. */
  lemma SignTest(a: CInt, t: IntType)
    requires IsValue(a) && a.ty.width >= INT.width
    ensures Less(a, Int(0)) == Truth(a.val < 0)
  {
  }

  /** For any two operand types and any result type the check of ADD is defined, finds every
      overflow, and reports none that is not there except in the case of `FalseAlarm`. */
  lemma AddExact(a: CInt, b: CInt, t: IntType)
    requires Operands(a, b, t)
    ensures var r := AddCheck(a, b, TMin(t), TMax(t));
      r.CInt? && (r.val != 0 <==> !Fits(t, a.val + b.val) || FalseAlarm(a, b, t) || FalseAlarm(b, a, t))
  {
    hide Half, SumBelow, SumAboveA, SumAboveB, Less, Minus;
    SignTest(a, t);
    SignTest(b, t);
    if b.val < 0 {
      SumBelowExact(a, b, t);
      SumAboveBExact(a, b, t);
    } else if a.val < 0 {
      SumBelowExact(b, a, t);
      SumAboveAExact(a, b, t);
    } else {
      AddNonnegativeExact(a, b, t);
    }
  }

  /** The check of ADD is exact for all values of two types and a result type unless the
      result type is signed and narrower than a signed operand type that is no wider than
      the unsigned type of the other operand. */
  predicate AddTrusted(ta: IntType, tb: IntType, t: IntType) {
    !(t.signed && ((ta.signed && !tb.signed && t.width < ta.width <= tb.width)
                || (tb.signed && !ta.signed && t.width < tb.width <= ta.width)))
  }

  lemma AddTrustedExactly(ta: IntType, tb: IntType, t: IntType)
    requires IsType(ta) && IsType(tb) && IsType(t) && ta.width >= INT.width && tb.width >= INT.width
    ensures AddTrusted(ta, tb, t) <==>
      forall x: int, y: int | Fits(ta, x) && Fits(tb, y) ::
        var r := AddCheck(CInt(ta, x), CInt(tb, y), TMin(t), TMax(t)); r.CInt? && (r.val != 0 <==> !Fits(t, x + y))
  {
    hide AddCheck;
    if AddTrusted(ta, tb, t) {
      forall x: int, y: int | Fits(ta, x) && Fits(tb, y)
        ensures var r := AddCheck(CInt(ta, x), CInt(tb, y), TMin(t), TMax(t)); r.CInt? && (r.val != 0 <==> !Fits(t, x + y))
      {
        AllWidths(ta, tb, t);
        AddExact(CInt(ta, x), CInt(tb, y), t);
      }
    } else {
      AllWidths(ta, tb, t);
      var x, y := if ta.signed then Min(ta) else Half(tb) + Min(t), if ta.signed then Half(ta) + Min(t) else Min(tb);
      AddExact(CInt(ta, x), CInt(tb, y), t);
      assert Fits(ta, x) && Fits(tb, y) && Fits(t, x + y);
    }
  }

  /** Concretely: INT_MIN plus the unsigned -(INT_MIN + 128) is -128, which fits signed char. */
  lemma AddFalseAlarm()
    ensures var a, b, t := CInt(INT, Min(INT)), CInt(IntType(INT_WIDTH, false), Half(INT) - 128), IntType(8, true);
      && IsValue(a) && IsValue(b) && Fits(t, a.val + b.val)
      && AddCheck(a, b, TMin(t), TMax(t)).CInt? && AddCheck(a, b, TMin(t), TMax(t)).val != 0
  {
    var a, b, t := CInt(INT, Min(INT)), CInt(IntType(INT_WIDTH, false), Half(INT) - 128), IntType(8, true);
    assert Pow2(4) == 16;
    assert Pow2(7) == 128;
    Pow2Grows(7, INT_WIDTH - 1);
    AddExact(a, b, t);
  }

  // ----- SUBTRACT -----

  function SubtractCheck(a: CInt, b: CInt, tmin: CInt, tmax: CInt): CInt
    requires a.CInt? && b.CInt? && tmin.CInt? && tmax.CInt?
  {
    If(Truth(Less(a, Int(0)) == Less(b, Int(0))), SubtractSameSign(a, b, tmin, tmax),
       If(Less(a, Int(0)), SubtractFromNegative(a, b, tmin), SubtractNegative(a, b, tmax)))
  }

  function SubtractSameSign(a: CInt, b: CInt, tmin: CInt, tmax: CInt): CInt
    requires a.CInt? && b.CInt? && tmin.CInt? && tmax.CInt?
  {
    If(Less(a, b),
       Or(Not(tmin), Less(Minus(Int(-1), tmin), Minus(Minus(b, a), Int(1)))),
       Less(tmax, Minus(a, b)))
  }

  function SubtractFromNegative(a: CInt, b: CInt, tmin: CInt): CInt
    requires a.CInt? && b.CInt? && tmin.CInt?
  {
    Or(And(Not(Signed(Common(Common(a.ty, tmin.ty), b.ty))), Less(Minus(a, tmin), Int(0))), Less(Minus(a, tmin), b))
  }

  function SubtractNegative(a: CInt, b: CInt, tmax: CInt): CInt
    requires a.CInt? && b.CInt? && tmax.CInt?
  {
    Or(And(Not(And(Signed(Common(tmax.ty, b.ty)), Signed(Common(Common(tmax.ty, b.ty), a.ty)))), AtMost(tmax, Minus(Int(-1), b))),
       Less(Plus(tmax, b), a))
  }

  lemma SubtractNonnegativeExact(a: CInt, b: CInt, t: IntType)
    requires Operands(a, b, t) && 0 <= a.val && 0 <= b.val
    ensures var r := SubtractSameSign(a, b, TMin(t), TMax(t)); r.CInt? && (r.val != 0 <==> !Fits(t, a.val - b.val))
  {
    hide Half, Less, Minus, TMax, TMin;
    ExtremaFit(t);
    NonnegativeOps(a, b);
    NonnegativeOps(b, a);
    if a.val < b.val {
      var d := Minus(b, a);
      NonnegativeOps(d, Int(1));
      SignedOps(Int(-1), TMin(t));
      if Min(t) < 0 { NonnegativeOps(Minus(Int(-1), TMin(t)), Minus(d, Int(1))); }
    } else {
      NonnegativeOps(TMax(t), Minus(a, b));
    }
  }

  lemma SubtractNegativesExact(a: CInt, b: CInt, t: IntType)
    requires Operands(a, b, t) && a.val < 0 && b.val < 0
    ensures var r := SubtractSameSign(a, b, TMin(t), TMax(t)); r.CInt? && (r.val != 0 <==> !Fits(t, a.val - b.val))
  {
    hide Half, Less, Minus, TMax, TMin;
    ExtremaFit(t);
    SignedOps(a, b);
    SignedOps(b, a);
    if a.val < b.val {
      var d := Minus(b, a);
      SignedOps(d, Int(1));
      SignedOps(Int(-1), TMin(t));
      if Min(t) < 0 { SignedOps(Minus(Int(-1), TMin(t)), Minus(d, Int(1))); }
    } else {
      NonnegativeOps(TMax(t), Minus(a, b));
    }
  }

  lemma SubtractSameSignExact(a: CInt, b: CInt, t: IntType)
    requires Operands(a, b, t) && (a.val < 0 <==> b.val < 0)
    ensures var r := SubtractSameSign(a, b, TMin(t), TMax(t)); r.CInt? && (r.val != 0 <==> !Fits(t, a.val - b.val))
  {
    if a.val < 0 { SubtractNegativesExact(a, b, t); } else { SubtractNonnegativeExact(a, b, t); }
  }

  lemma SubtractSignedFromNegative(a: CInt, b: CInt, t: IntType)
    requires Operands(a, b, t) && a.val < 0 <= b.val && t.signed && b.ty.signed
    ensures var r := SubtractFromNegative(a, b, TMin(t)); r.CInt? && (r.val != 0 <==> !Fits(t, a.val - b.val))
  {
    hide Half;
    AllWidths(a.ty, b.ty, t);
    AllWidths(a.ty, b.ty, INT);
    Widths(t, INT);
  }

  lemma SubtractUnsignedFromNegative(a: CInt, b: CInt, t: IntType)
    requires Operands(a, b, t) && a.val < 0 <= b.val && t.signed && !b.ty.signed
    ensures var r := SubtractFromNegative(a, b, TMin(t)); r.CInt? && (r.val != 0 <==> !Fits(t, a.val - b.val))
  {
    hide Half;
    AllWidths(a.ty, b.ty, t);
    AllWidths(a.ty, b.ty, INT);
    Widths(t, INT);
  }

  lemma SubtractFromNegativeSigned(a: CInt, b: CInt, t: IntType)
    requires Operands(a, b, t) && a.val < 0 <= b.val && t.signed
    ensures var r := SubtractFromNegative(a, b, TMin(t)); r.CInt? && (r.val != 0 <==> !Fits(t, a.val - b.val))
  {
    hide Half, SubtractFromNegative;
    if b.ty.signed { SubtractSignedFromNegative(a, b, t); } else { SubtractUnsignedFromNegative(a, b, t); }
  }

  lemma SubtractFromNegativeUnsigned(a: CInt, b: CInt, t: IntType)
    requires Operands(a, b, t) && a.val < 0 <= b.val && !t.signed
    ensures var r := SubtractFromNegative(a, b, TMin(t)); r.CInt? && (r.val != 0 <==> !Fits(t, a.val - b.val))
  {
    hide Half;
    AllWidths(a.ty, b.ty, t);
    AllWidths(a.ty, b.ty, INT);
    Widths(t, INT);
  }

  lemma SubtractFromNegativeExact(a: CInt, b: CInt, t: IntType)
    requires Operands(a, b, t) && a.val < 0 <= b.val
    ensures var r := SubtractFromNegative(a, b, TMin(t)); r.CInt? && (r.val != 0 <==> !Fits(t, a.val - b.val))
  {
    hide Half, SubtractFromNegative;
    if t.signed { SubtractFromNegativeSigned(a, b, t); } else { SubtractFromNegativeUnsigned(a, b, t); }
  }

  lemma SubtractNegativeExact(a: CInt, b: CInt, t: IntType)
    requires Operands(a, b, t) && b.val < 0 <= a.val
    ensures var r := SubtractNegative(a, b, TMax(t)); r.CInt? && (r.val != 0 <==> !Fits(t, a.val - b.val))
  {
    hide Half, Less, AtMost, Minus, Plus, TMax, TMin, Modulus;
    ExtremaFit(t);
    assert b.ty.signed;
    SignedOps(Int(-1), b);
    NonnegativeOps(TMax(t), Minus(Int(-1), b));
    PlusDown(TMax(t), b);
    if Max(t) + b.val >= 0 { NonnegativeOps(Plus(TMax(t), b), a); }
    if Common(Common(TMax(t).ty, b.ty), a.ty).signed && Common(TMax(t).ty, b.ty).signed { SignedOps(Plus(TMax(t), b), a); }
  }

  /** For any two operand types and any result type the check of SUBTRACT is defined and
      true exactly if the difference does not fit. */
  lemma SubtractExact(a: CInt, b: CInt, t: IntType)
    requires Operands(a, b, t)
    ensures var r := SubtractCheck(a, b, TMin(t), TMax(t)); r.CInt? && (r.val != 0 <==> !Fits(t, a.val - b.val))
  {
    hide Half, SubtractSameSign, SubtractFromNegative, SubtractNegative, Less;
    SignTest(a, t);
    SignTest(b, t);
    if a.val < 0 <==> b.val < 0 {
      SubtractSameSignExact(a, b, t);
    } else if a.val < 0 {
      SubtractFromNegativeExact(a, b, t);
    } else {
      SubtractNegativeExact(a, b, t);
    }
  }

  // ----- MULTIPLY -----

  /** _GL_INT_CONVERT (e, v), for an e of type `e`. */
  function ConvertTo(e: IntType, v: CInt): CInt { Plus(CInt(e, 0), v) }

  function NegateOverflow(x: CInt): CInt
    requires x.CInt?
  {
    If(Less(CInt(x.ty, Min(x.ty)), Int(0)), Less(x, Negate(CInt(x.ty, Max(x.ty)))), Less(Int(0), x))
  }

  function MultiplyCheck(a: CInt, b: CInt, tmin: CInt, tmax: CInt): CInt
    requires a.CInt? && b.CInt? && tmin.CInt? && tmax.CInt?
  {
    If(Less(b, Int(0)),
       If(Less(a, Int(0)), NegativeTimesNegative(a, b, tmax), TimesNegative(a, b, tmin)),
       If(Equal(b, Int(0)), Int(0),
          If(Less(a, Int(0)), NegativeTimes(a, b, tmin), Less(Divide(tmax, b), a))))
  }

  function NegativeTimesNegative(a: CInt, b: CInt, tmax: CInt): CInt
    requires a.CInt? && b.CInt? && tmax.CInt?
  {
    If(Signed(Common(tmax.ty, b.ty)), Less(a, Divide(tmax, b)),
       AtMost(If(NegateOverflow(b), ShiftRight(ConvertTo(b.ty, tmax), if b.ty.width > 0 then b.ty.width - 1 else 0),
          Divide(tmax, Negate(b))),
              Minus(Int(-1), a)))
  }

  function TimesNegative(a: CInt, b: CInt, tmin: CInt): CInt
    requires a.CInt? && b.CInt? && tmin.CInt?
  {
    var c := ConvertTo(b.ty, tmin);
    If(And(if c.CInt? then NegateOverflow(c) else Undefined, Equal(b, Int(-1))),
       If(Signed(a.ty), Less(Int(0), Plus(a, tmin)), And(Less(Int(0), a), Less(Minus(Int(-1), tmin), Minus(a, Int(1))))),
       Less(Divide(tmin, b), a))
  }

  function NegativeTimes(a: CInt, b: CInt, tmin: CInt): CInt
    requires a.CInt? && b.CInt? && tmin.CInt?
  {
    var c := ConvertTo(a.ty, tmin);
    If(And(if c.CInt? then NegateOverflow(c) else Undefined, Equal(a, Int(-1))),
       If(Signed(b.ty), Less(Int(0), Plus(b, tmin)), Less(Minus(Int(-1), tmin), Minus(b, Int(1)))),
       Less(Divide(tmin, a), b))
  }

  /** Comparing a product with a bound by comparing with a rounded quotient. */
  lemma FloorExact(x: int, y: int, m: int)
    requires x >= 0 && y > 0 && m >= 0
    ensures x * y > m <==> x > m / y
    ensures 0 <= m / y <= m
  {
    var q, r := m / y, m % y;
    assert q * y + r == m && 0 <= r < y;
    if x > q {
      Larger(x, q + 1, y);
      assert (q + 1) * y == q * y + y;
    } else {
      Larger(q, x, y);
    }
    if q < 0 { Larger(-1, q, y); }
    if q > 0 { Larger(y, 1, q); }
  }

  lemma Larger(x: int, x': int, y: int)
    requires x' <= x && y >= 0
    ensures x' * y <= x * y && y * x' <= y * x
  {
    assert (x - x') * y >= 0;
  }

  lemma DivideNonnegative(x: CInt, y: CInt)
    requires IsValue(x) && IsValue(y) && 0 <= x.val && 0 < y.val
    ensures Divide(x, y) == CInt(Common(x.ty, y.ty), x.val / y.val) && IsValue(Divide(x, y))
  {
    hide Half;
    Widths(x.ty, y.ty);
    Widths(y.ty, x.ty);
    FloorExact(0, y.val, x.val);
  }

  /** Division by a negative number, in a signed type. */
  lemma DivideByNegative(x: CInt, y: CInt)
    requires IsValue(x) && IsValue(y) && Common(x.ty, y.ty).signed && y.val < 0
    requires y.val == -1 ==> x.val != Min(Common(x.ty, y.ty))
    ensures var q := if x.val >= 0 then -(x.val / -y.val) else -x.val / -y.val;
      Divide(x, y) == CInt(Common(x.ty, y.ty), q) && IsValue(Divide(x, y))
  {
    hide Half;
    Widths(x.ty, y.ty);
    Widths(y.ty, x.ty);
    var m := if x.val >= 0 then x.val else -x.val;
    FloorExact(1, -y.val, m);
    if y.val == -1 { assert m / -y.val == m; }
    if y.val < -1 && m > 0 { FloorExact(m, -y.val, m); Larger(-y.val, 2, m); }
  }

  lemma NegateOverflows(x: CInt)
    requires IsValue(x) && x.ty.width >= INT.width
    ensures NegateOverflow(x) == Truth(if x.ty.signed then x.val == Min(x.ty) else x.val > 0)
    ensures x.ty.signed && x.val != Min(x.ty) ==> Negate(x) == CInt(x.ty, -x.val) && IsValue(Negate(x))
  {
    HalfTwo(x.ty);
    hide Half;
    Widths(INT, x.ty);
  }

  /** Conversion of a nonnegative value, or to a signed type, keeps it. */
  lemma ConvertKeeps(e: IntType, v: CInt)
    requires IsValue(v) && IsType(e) && (v.val >= 0 || Common(e, v.ty).signed)
    ensures ConvertTo(e, v) == CInt(Common(e, v.ty), v.val) && IsValue(ConvertTo(e, v))
  {
    hide Half;
    Widths(e, v.ty);
    Widths(v.ty, e);
  }

  lemma IsMinusOne(x: CInt)
    requires IsValue(x) && x.val < 0 && x.ty.width >= INT.width
    ensures Equal(x, Int(-1)) == Truth(x.val == -1)
  {
  }

  lemma NegativeFactors(x: int, y: int)
    requires x < 0 && y < 0
    ensures -x * -y == x * y >= 0
  {
  }

  lemma NegativeTimesNegativeExact(a: CInt, b: CInt, t: IntType)
    requires Operands(a, b, t) && a.val < 0 && b.val < 0
    ensures var r := NegativeTimesNegative(a, b, TMax(t)); r.CInt? && (r.val != 0 <==> !Fits(t, a.val * b.val))
  {
    hide Half, Less, AtMost, Minus, Divide, ConvertTo, NegateOverflow, Negate, TMax, TMin, Modulus;
    ExtremaFit(t);
    FloorExact(-a.val, -b.val, Max(t));
    NegativeFactors(a.val, b.val);
    if Common(TMax(t).ty, b.ty).signed {
      DivideByNegative(TMax(t), b);
      SignedOps(a, Divide(TMax(t), b));
    } else {
      NegateOverflows(b);
      SignedOps(Int(-1), a);
      var q: CInt;
      if b.val == Min(b.ty) {
        ConvertKeeps(b.ty, TMax(t));
        q := ShiftRight(ConvertTo(b.ty, TMax(t)), b.ty.width - 1);
        ShiftIsDivision(b.ty);
      } else {
        DivideNonnegative(TMax(t), Negate(b));
        q := Divide(TMax(t), Negate(b));
      }
      assert q.CInt? && q.val == Max(t) / -b.val && 0 <= q.val <= Max(t) && Fits(q.ty, q.val);
      NonnegativeOps(q, Minus(Int(-1), a));
    }
  }

  lemma ShiftIsDivision(t: IntType)
    requires t.width >= 1
    ensures Pow2(t.width - 1) == Half(t)
  {
  }

  /** The quotient test for a product of signs + and -. */
  lemma QuotientBelow(b: CInt, n: CInt, t: IntType)
    requires Operands(b, n, t) && n.val < 0 <= b.val && !(TMin(t).val == Min(Common(n.ty, TMin(t).ty)) && n.val == -1)
    ensures Less(Divide(TMin(t), n), b) == Truth(b.val * n.val < Min(t))
  {
    hide Half, Less, Divide, TMax, TMin, Modulus;
    ExtremaFit(t);
    DivideByNegative(TMin(t), n);
    FloorExact(b.val, -n.val, -Min(t));
    assert b.val * -n.val == -(b.val * n.val);
    assert 0 / -n.val == 0;
    NonnegativeOps(Divide(TMin(t), n), b);
  }

  /** The test for a product with -1, where the quotient would overflow. */
  lemma MinusOneBelow(b: CInt, n: CInt, t: IntType)
    requires Operands(b, n, t) && n.val == -1 && 0 <= b.val && Min(t) < 0
    ensures b.ty.signed ==> Less(Int(0), Plus(b, TMin(t))) == Truth(b.val * n.val < Min(t))
    ensures !b.ty.signed && b.val > 0 ==> Less(Minus(Int(-1), TMin(t)), Minus(b, Int(1))) == Truth(b.val * n.val < Min(t))
  {
    hide Half, Less, Minus, Plus, TMax, TMin, Modulus;
    ExtremaFit(t);
    assert b.val * n.val == -b.val;
    if b.ty.signed {
      PlusDown(b, TMin(t));
      SignedOps(Int(0), Plus(b, TMin(t)));
    } else if b.val > 0 {
      NonnegativeOps(b, Int(1));
      SignedOps(Int(-1), TMin(t));
      NonnegativeOps(Minus(Int(-1), TMin(t)), Minus(b, Int(1)));
    }
  }

  lemma SpecialCase(n: CInt, t: IntType)
    requires IsValue(n) && n.ty.width >= INT.width && n.val < 0 && IsType(t)
    ensures var c := ConvertTo(n.ty, TMin(t));
      && c.CInt? && NegateOverflow(c) == Truth(TMin(t).val == Min(Common(n.ty, TMin(t).ty)))
      && (NegateOverflow(c).val != 0 ==> Min(t) < 0)
  {
    hide Half, Less, Plus, Negate, NegateOverflow, ConvertTo, TMax, TMin, Modulus;
    ExtremaFit(t);
    ConvertKeeps(n.ty, TMin(t));
    NegateOverflows(ConvertTo(n.ty, TMin(t)));
    HalfTwo(Common(n.ty, TMin(t).ty));
  }

  lemma TimesNegativeExact(a: CInt, b: CInt, t: IntType)
    requires Operands(a, b, t) && b.val < 0 <= a.val
    ensures var r := TimesNegative(a, b, TMin(t)); r.CInt? && (r.val != 0 <==> !Fits(t, a.val * b.val))
  {
    hide Half, Less, Minus, Plus, Divide, Equal, ConvertTo, NegateOverflow, TMax, TMin, Modulus;
    ExtremaFit(t);
    SpecialCase(b, t);
    IsMinusOne(b);
    NonnegativeOps(Int(0), a);
    Larger(0, b.val, a.val);
    if TMin(t).val == Min(Common(b.ty, TMin(t).ty)) && b.val == -1 {
      MinusOneBelow(a, b, t);
    } else {
      QuotientBelow(a, b, t);
    }
  }

  lemma NegativeTimesExact(a: CInt, b: CInt, t: IntType)
    requires Operands(a, b, t) && a.val < 0 < b.val
    ensures var r := NegativeTimes(a, b, TMin(t)); r.CInt? && (r.val != 0 <==> !Fits(t, a.val * b.val))
  {
    hide Half, Less, Minus, Plus, Divide, Equal, ConvertTo, NegateOverflow, TMax, TMin, Modulus;
    ExtremaFit(t);
    SpecialCase(a, t);
    IsMinusOne(a);
    Larger(0, a.val, b.val);
    if TMin(t).val == Min(Common(a.ty, TMin(t).ty)) && a.val == -1 {
      MinusOneBelow(b, a, t);
    } else {
      QuotientBelow(b, a, t);
    }
  }

  lemma IsZero(b: CInt)
    requires IsValue(b) && b.ty.width >= INT.width
    ensures Equal(b, Int(0)) == Truth(b.val == 0)
  {
  }

  /** For any two operand types and any result type the check of MULTIPLY is defined and
      true exactly if the product does not fit. */
  lemma MultiplyExact(a: CInt, b: CInt, t: IntType)
    requires Operands(a, b, t)
    ensures var r := MultiplyCheck(a, b, TMin(t), TMax(t)); r.CInt? && (r.val != 0 <==> !Fits(t, a.val * b.val))
  {
    hide Half, Less, Equal, Divide, NegativeTimesNegative, TimesNegative, NegativeTimes, TMax, TMin, Modulus;
    ExtremaFit(t);
    SignTest(a, t);
    SignTest(b, t);
    IsZero(b);
    if b.val < 0 {
      if a.val < 0 { NegativeTimesNegativeExact(a, b, t); } else { TimesNegativeExact(a, b, t); }
    } else if b.val > 0 {
      if a.val < 0 {
        NegativeTimesExact(a, b, t);
      } else {
        FloorExact(a.val, b.val, Max(t));
        Larger(a.val, 0, b.val);
        DivideNonnegative(TMax(t), b);
        NonnegativeOps(Divide(TMax(t), b), a);
      }
    }
  }

  // ----- The checks of intprops.h, on operands of the result type -----

  predicate SameType(a: CInt, b: CInt, t: IntType) {
    IsValue(a) && IsValue(b) && a.ty == b.ty == t && t.width >= INT.width
  }

  function TypeMin(t: IntType): CInt { CInt(t, Min(t)) }

  function TypeMax(t: IntType): CInt { CInt(t, Max(t)) }

  function AddRange(a: CInt, b: CInt, min: CInt, max: CInt): CInt {
    If(Less(b, Int(0)), Less(a, Minus(min, b)), Less(Minus(max, b), a))
  }

  function SubtractRange(a: CInt, b: CInt, min: CInt, max: CInt): CInt {
    If(Less(b, Int(0)), Less(Plus(max, b), a), Less(a, Plus(min, b)))
  }

  function MultiplyRange(a: CInt, b: CInt, min: CInt, max: CInt): CInt {
    If(Less(b, Int(0)),
       If(Less(a, Int(0)), Less(a, Divide(max, b)), If(Equal(b, Int(-1)), Int(0), Less(Divide(min, b), a))),
       If(Equal(b, Int(0)), Int(0),
          If(Less(a, Int(0)), Less(a, Divide(min, b)), Less(Divide(max, b), a))))
  }

  lemma AddRangeExact(a: CInt, b: CInt, t: IntType)
    requires SameType(a, b, t)
    ensures var r := AddRange(a, b, TypeMin(t), TypeMax(t)); r.CInt? && (r.val != 0 <==> !Fits(t, a.val + b.val))
  {
    hide Half, Less, Minus;
    SignTest(b, t);
    if b.val < 0 {
      SignedOps(TypeMin(t), b);
      SignedOps(a, Minus(TypeMin(t), b));
    } else if a.val < 0 {
      SignedOps(TypeMax(t), b);
      SignedOps(Minus(TypeMax(t), b), a);
    } else {
      NonnegativeOps(TypeMax(t), b);
      NonnegativeOps(Minus(TypeMax(t), b), a);
    }
  }

  lemma SubtractRangeExact(a: CInt, b: CInt, t: IntType)
    requires SameType(a, b, t)
    ensures var r := SubtractRange(a, b, TypeMin(t), TypeMax(t)); r.CInt? && (r.val != 0 <==> !Fits(t, a.val - b.val))
  {
    hide Half;
    Widths(INT, t);
  }

  /** Division by a positive number of a negative one. */
  lemma DivideNegative(x: CInt, y: CInt)
    requires IsValue(x) && IsValue(y) && x.ty == y.ty && x.val < 0 < y.val
    ensures Divide(x, y) == CInt(x.ty, -(-x.val / y.val)) && IsValue(Divide(x, y))
  {
    hide Half;
    FloorExact(0, y.val, -x.val);
  }

  lemma MultiplyRangeNegatives(a: CInt, b: CInt, t: IntType)
    requires SameType(a, b, t) && a.val < 0 && b.val < 0
    ensures Less(a, Divide(TypeMax(t), b)) == Truth(!Fits(t, a.val * b.val))
  {
    hide Half, Less, Divide, Modulus;
    FloorExact(-a.val, -b.val, Max(t));
    NegativeFactors(a.val, b.val);
    DivideByNegative(TypeMax(t), b);
    SignedOps(a, Divide(TypeMax(t), b));
  }

  lemma MultiplyRangeByNegative(a: CInt, b: CInt, t: IntType)
    requires SameType(a, b, t) && 0 <= a.val && b.val < -1
    ensures Less(Divide(TypeMin(t), b), a) == Truth(!Fits(t, a.val * b.val))
  {
    hide Half, Less, Divide, Modulus;
    FloorExact(a.val, -b.val, -Min(t));
    assert a.val * -b.val == -(a.val * b.val);
    HalfTwo(t);
    Larger(0, b.val, a.val);
    DivideByNegative(TypeMin(t), b);
    NonnegativeOps(Divide(TypeMin(t), b), a);
  }

  lemma MultiplyRangeOfNegative(a: CInt, b: CInt, t: IntType)
    requires SameType(a, b, t) && a.val < 0 < b.val
    ensures Less(a, Divide(TypeMin(t), b)) == Truth(!Fits(t, a.val * b.val))
  {
    hide Half, Less, Divide, Modulus;
    FloorExact(-a.val, b.val, -Min(t));
    assert -a.val * b.val == -(a.val * b.val);
    HalfTwo(t);
    Larger(0, a.val, b.val);
    DivideNegative(TypeMin(t), b);
    SignedOps(a, Divide(TypeMin(t), b));
  }

  lemma MultiplyRangeNonnegative(a: CInt, b: CInt, t: IntType)
    requires SameType(a, b, t) && 0 <= a.val && 0 < b.val
    ensures Less(Divide(TypeMax(t), b), a) == Truth(!Fits(t, a.val * b.val))
  {
    hide Half, Less, Divide, Modulus;
    FloorExact(a.val, b.val, Max(t));
    Larger(a.val, 0, b.val);
    DivideNonnegative(TypeMax(t), b);
    NonnegativeOps(Divide(TypeMax(t), b), a);
  }

  /** A nonnegative number times -1 always fits, and there the check does not divide. */
  lemma MultiplyRangeExact(a: CInt, b: CInt, t: IntType)
    requires SameType(a, b, t)
    ensures var r := MultiplyRange(a, b, TypeMin(t), TypeMax(t)); r.CInt? && (r.val != 0 <==> !Fits(t, a.val * b.val))
  {
    hide Less, Equal, Divide;
    SignTest(a, t);
    SignTest(b, t);
    IsZero(b);
    if b.val < 0 {
      IsMinusOne(b);
      if a.val < 0 {
        MultiplyRangeNegatives(a, b, t);
      } else if b.val == -1 {
        assert a.val * b.val == -a.val;
      } else {
        MultiplyRangeByNegative(a, b, t);
      }
    } else if b.val > 0 {
      if a.val < 0 { MultiplyRangeOfNegative(a, b, t); } else { MultiplyRangeNonnegative(a, b, t); }
    }
  }

  // ----- Storing the low-order bits -----

  datatype Op = Addition | Subtraction | Multiplication

  function Exact(op: Op, x: int, y: int): int {
    match op case Addition => x + y case Subtraction => x - y case Multiplication => x * y
  }

  function Check(op: Op, a: CInt, b: CInt, t: IntType): CInt
    requires a.CInt? && b.CInt?
  {
    match op
    case Addition => AddCheck(a, b, TMin(t), TMax(t))
    case Subtraction => SubtractCheck(a, b, TMin(t), TMax(t))
    case Multiplication => MultiplyCheck(a, b, TMin(t), TMax(t))
  }

  /** (t) v, which keeps the low-order bits. */
  function LowBits(t: IntType, v: int): int {
    var r := v % Modulus(t); if t.signed && r >= Half(t) then r - Modulus(t) else r
  }

  ghost predicate Congruent(m: int, x: int, y: int) { exists k: int :: x == y + k * m }

  lemma ResidueCongruent(m: int, x: int)
    requires m > 0
    ensures Congruent(m, x % m, x)
  {
    assert x % m == x + (-(x / m)) * m;
  }

  lemma CongruentTimes(m: int, x: int, x': int, y: int)
    requires Congruent(m, x, x')
    ensures Congruent(m, x * y, x' * y) && Congruent(m, y * x, y * x')
  {
    var j: int :| x == x' + j * m;
    Distribute(x', j * m, y);
    Reorder(j, m, y);
    assert x * y == x' * y + (j * y) * m;
  }

  lemma Distribute(x: int, z: int, y: int)
    ensures (x + z) * y == x * y + z * y
  {
  }

  lemma Reorder(j: int, m: int, y: int)
    ensures j * m * y == j * y * m
  {
  }

  lemma CongruentOps(m: int, x: int, x': int, y: int, y': int, op: Op)
    requires Congruent(m, x, x') && Congruent(m, y, y')
    ensures Congruent(m, Exact(op, x, y), Exact(op, x', y'))
  {
    if op.Multiplication? {
      CongruentTimes(m, x, x', y);
      CongruentTimes(m, y, y', x');
      CongruentTrans(m, x * y, x' * y, x' * y');
    } else {
      var j: int, k: int :| x == x' + j * m && y == y' + k * m;
      Distribute(j, k, m);
      Distribute(j, -k, m);
      assert x + y == x' + y' + (j + k) * m;
      assert x - y == x' - y' + (j - k) * m;
    }
  }

  lemma CongruentTrans(m: int, x: int, y: int, z: int)
    requires Congruent(m, x, y) && Congruent(m, y, z)
    ensures Congruent(m, x, z)
  {
    var j: int, k: int :| x == y + j * m && y == z + k * m;
    assert x == z + (j + k) * m;
  }

  /** What is congruent modulo a multiple is congruent. */
  lemma CongruentLess(m: int, n: int, c: int, x: int, y: int)
    requires n == c * m && Congruent(n, x, y)
    ensures Congruent(m, x, y)
  {
    var k: int :| x == y + k * n;
    assert k * (c * m) == (k * c) * m;
    assert x == y + (k * c) * m;
  }

  lemma {:induction false} Pow2Factor(m: nat, n: nat)
    requires m <= n
    ensures Pow2(n) == Pow2(n - m) * Pow2(m)
    decreases n
  {
    if m < n { Pow2Factor(m, n - 1); }
  }

  lemma LowBitsCongruent(t: IntType, v: int)
    ensures Congruent(Modulus(t), LowBits(t, v), v) && Fits(t, LowBits(t, v))
  {
    ResidueCongruent(Modulus(t), v);
    var k: int :| v % Modulus(t) == v + k * Modulus(t);
    assert v % Modulus(t) - Modulus(t) == v + (k - 1) * Modulus(t);
  }

  /** Two values of a type that are congruent are equal. */
  lemma CongruentEqual(t: IntType, x: int, y: int)
    requires Congruent(Modulus(t), x, y) && Fits(t, x) && Fits(t, y)
    ensures x == y
  {
    var k: int :| x == y + k * Modulus(t);
    if k >= 1 { Larger(k, 1, Modulus(t)); }
    if k <= -1 { Larger(-1, k, Modulus(t)); }
  }

  /** _GL_INT_OP_WRAPV_VIA_UNSIGNED: calculating in an unsigned type at least as wide as `t`
      keeps the low-order bits of the exact result. */
  lemma ViaUnsignedExact(op: Op, x: int, y: int, ut: IntType, t: IntType)
    requires 1 <= t.width <= ut.width
    ensures var u := Modulus(ut); var r := LowBits(t, Exact(op, x % u, y % u) % u);
      Fits(t, r) && Congruent(Modulus(t), r, Exact(op, x, y))
  {
    var u := Modulus(ut);
    var v := Exact(op, x % u, y % u);
    ResidueCongruent(u, x);
    ResidueCongruent(u, y);
    CongruentOps(u, x % u, x, y % u, y, op);
    ResidueCongruent(u, v);
    CongruentTrans(u, v % u, v, Exact(op, x, y));
    Pow2Factor(t.width - 1, ut.width - 1);
    var c := Pow2(ut.width - t.width);
    assert u == c * Modulus(t) by { assert Half(ut) == c * Half(t); assert c * (2 * Half(t)) == 2 * (c * Half(t)); }
    CongruentLess(Modulus(t), u, c, v % u, Exact(op, x, y));
    LowBitsCongruent(t, v % u);
    CongruentTrans(Modulus(t), LowBits(t, v % u), v % u, Exact(op, x, y));
  }

  /** _GL_INT_OP_CALC: the flag and what is stored through `r`. The low-order bits are always
      right; a clear flag means that the stored value is the exact result; and a set flag
      means that it is not, but for the false alarms of ADD. */
  method OpCalc(op: Op, a: CInt, b: CInt, ut: IntType, t: IntType, r: array<int>) returns (flag: int)
    requires Operands(a, b, t) && !ut.signed && ut.width >= INT.width && ut.width >= t.width && r.Length == 1
    modifies r
    ensures flag == 0 || flag == 1
    ensures Fits(t, r[0]) && Congruent(Modulus(t), r[0], Exact(op, a.val, b.val))
    ensures flag == 0 ==> r[0] == Exact(op, a.val, b.val)
    ensures flag == 1 ==>
      r[0] != Exact(op, a.val, b.val) || (op.Addition? && (FalseAlarm(a, b, t) || FalseAlarm(b, a, t)))
  {
    hide Half, LowBits, Congruent, AddCheck, SubtractCheck, MultiplyCheck, TMin, TMax, Pow2;
    AddExact(a, b, t);
    SubtractExact(a, b, t);
    MultiplyExact(a, b, t);
    ViaUnsignedExact(op, a.val, b.val, ut, t);
    var u := Modulus(ut);
    ghost var exact := Exact(op, a.val, b.val);
    r[0] := LowBits(t, Exact(op, a.val % u, b.val % u) % u);
    flag := if Check(op, a, b, t).val != 0 then 1 else 0;
    if Fits(t, exact) { CongruentEqual(t, r[0], exact); }
  }
}
