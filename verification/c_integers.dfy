/** C integer arithmetic on two's complement types: conversions, wrap-around of unsigned
    types, and undefined behaviour where a signed operation overflows. */
module CIntegers {

  function Pow2(n: nat): (p: nat)
    ensures p >= 1
  {
    if n == 0 then 1 else 2 * Pow2(n - 1)
  }

  lemma {:induction false} Pow2Grows(m: nat, n: nat)
    requires m < n
    ensures 2 * Pow2(m) <= Pow2(n)
    decreases n
  {
    if m < n - 1 { Pow2Grows(m, n - 1); }
  }

  datatype IntType = IntType(width: nat, signed: bool)

  predicate IsType(t: IntType) { t.width >= 2 }

  function Half(t: IntType): (h: int)
    ensures h >= 1
  {
    if t.width == 0 then 1 else Pow2(t.width - 1)
  }

  function Modulus(t: IntType): (m: int)
    ensures m >= 2
  {
    2 * Half(t)
  }

  function Min(t: IntType): int { if t.signed then -Half(t) else 0 }

  function Max(t: IntType): int { if t.signed then Half(t) - 1 else Modulus(t) - 1 }

  predicate Fits(t: IntType, v: int) { Min(t) <= v <= Max(t) }

  /** The types of 8, 16 and 32 bits. */
  lemma TypeRanges()
    ensures forall v :: Fits(IntType(8, true), v) <==> -128 <= v <= 127
    ensures forall v :: Fits(IntType(8, false), v) <==> 0 <= v <= 255
    ensures forall v :: Fits(IntType(16, true), v) <==> -32768 <= v <= 32767
    ensures forall v :: Fits(IntType(16, false), v) <==> 0 <= v <= 65535
    ensures forall v :: Fits(IntType(32, true), v) <==> -2147483648 <= v <= 2147483647
    ensures forall v :: Fits(IntType(32, false), v) <==> 0 <= v <= 4294967295
  {
    assert Pow2(7) == 128 && Pow2(15) == 32768;
    assert Pow2(23) == 8388608;
    assert Pow2(31) == 2147483648;
  }

  /** int, of any width the C standard allows; narrower types are promoted to it. */
  type IntWidth = w: nat | w >= 16 witness 32

  const INT_WIDTH: IntWidth

  const INT := IntType(INT_WIDTH, true)

  function Promote(t: IntType): IntType { if t.width < INT.width then INT else t }

  /** The usual arithmetic conversions, on promoted types. */
  function Common(t: IntType, u: IntType): IntType {
    if t.signed == u.signed then (if t.width >= u.width then t else u)
    else if t.signed then (if u.width >= t.width then u else t)
    else if t.width >= u.width then t else u
  }

  /** An operand or a result; `Undefined` is undefined behaviour. */
  datatype CInt = CInt(ty: IntType, val: int) | Undefined

  predicate IsValue(x: CInt) { x.CInt? && IsType(x.ty) && Fits(x.ty, x.val) }

  /** The residue modulo `m`, written out for the cases that occur. */
  function Wrap(m: int, v: int): int
    requires m > 0
  {
    if 0 <= v < m then v else if -m <= v < 0 then v + m else if m <= v < 2 * m then v - m else v % m
  }

  lemma AtLeastOne(k: int, m: int)
    requires k >= 1 && m > 0
    ensures k * m >= m
  {
  }

  lemma ResidueIs(v: int, q: int, r: int, m: int)
    requires m > 0 && v == q * m + r && 0 <= r < m
    ensures v % m == r
  {
    var q', r' := v / m, v % m;
    assert q' * m + r' == v;
    assert (q - q') * m == r' - r;
    assert (q' - q) * m == r - r';
    if q > q' { AtLeastOne(q - q', m); }
    if q < q' { AtLeastOne(q' - q, m); }
  }

  /** Conversion to a type at least as wide that a signed value fits, or to an unsigned type. */
  function Convert(t: IntType, v: int): int { if t.signed then v else Wrap(Modulus(t), v) }

  function Result(t: IntType, v: int): CInt {
    if !t.signed then CInt(t, Wrap(Modulus(t), v)) else if Fits(t, v) then CInt(t, v) else Undefined
  }

  function Int(v: int): CInt { CInt(INT, v) }

  function Plus(x: CInt, y: CInt): CInt {
    if x.Undefined? || y.Undefined? then Undefined
    else var t := Common(x.ty, y.ty); Result(t, Convert(t, x.val) + Convert(t, y.val))
  }

  function Minus(x: CInt, y: CInt): CInt {
    if x.Undefined? || y.Undefined? then Undefined
    else var t := Common(x.ty, y.ty); Result(t, Convert(t, x.val) - Convert(t, y.val))
  }

  /** Division rounds toward zero. */
  function Quotient(a: int, b: int): int
    requires b != 0
  {
    if a >= 0 then (if b > 0 then a / b else -(a / -b)) else if b > 0 then -(-a / b) else -a / -b
  }

  function Divide(x: CInt, y: CInt): CInt {
    if x.Undefined? || y.Undefined? then Undefined
    else
      var t := Common(x.ty, y.ty);
      if Convert(t, y.val) == 0 then Undefined else Result(t, Quotient(Convert(t, x.val), Convert(t, y.val)))
  }

  function Negate(x: CInt): CInt { if x.Undefined? then Undefined else Result(x.ty, -x.val) }

  function Truth(b: bool): CInt { Int(if b then 1 else 0) }

  /** x < y */
  function Less(x: CInt, y: CInt): CInt {
    if x.Undefined? || y.Undefined? then Undefined
    else var t := Common(x.ty, y.ty); Truth(Convert(t, x.val) < Convert(t, y.val))
  }

  /** x <= y */
  function AtMost(x: CInt, y: CInt): CInt {
    if x.Undefined? || y.Undefined? then Undefined
    else var t := Common(x.ty, y.ty); Truth(Convert(t, x.val) <= Convert(t, y.val))
  }

  /** x == y */
  function Equal(x: CInt, y: CInt): CInt {
    if x.Undefined? || y.Undefined? then Undefined
    else var t := Common(x.ty, y.ty); Truth(Convert(t, x.val) == Convert(t, y.val))
  }

  /** x >> n, of a nonnegative value */
  function ShiftRight(x: CInt, n: nat): CInt {
    if x.Undefined? || x.val < 0 || n >= x.ty.width then Undefined else CInt(x.ty, x.val / Pow2(n))
  }

  /** x && y, x || y and !x; the second operand only matters where it is evaluated. */
  function And(x: CInt, y: CInt): CInt {
    if x.Undefined? || (x.val != 0 && y.Undefined?) then Undefined else Truth(x.val != 0 && y.val != 0)
  }

  function Or(x: CInt, y: CInt): CInt {
    if x.Undefined? || (x.val == 0 && y.Undefined?) then Undefined else Truth(x.val != 0 || y.val != 0)
  }

  function Not(x: CInt): CInt { if x.Undefined? then Undefined else Truth(x.val == 0) }

  /** c ? x : y */
  function If(c: CInt, x: CInt, y: CInt): CInt { if c.Undefined? then Undefined else if c.val != 0 then x else y }

  /** Whether an expression has a signed type, without evaluating it. */
  function Signed(t: IntType): CInt { Truth(t.signed) }
}
