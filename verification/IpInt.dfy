/** Infinite-precision integers: an APInt kept at the least width that holds its value. */
module IpInt {
  import opened Powers
  import opened ApInt

  /** The least number of bits that hold v as a signed two's complement number. */
  function SignificantBits(v: int): (w: nat)
    ensures w >= 1
    decreases Abs(v)
  {
    if v == 0 || v == -1 then 1 else 1 + SignificantBits(v / 2)
  }

  predicate Canonical(a: APInt) {
    a.Valid() && a.width == SignificantBits(a.Signed())
  }

  type IPInt = a: APInt | Canonical(a) witness APInt(1, 0)

  function Value(x: IPInt): int {
    x.Signed()
  }

  /** Normalising constructor: cut the pattern to its significant bits. */
  function FromAPInt(a: APInt): (x: IPInt)
    requires a.Valid()
    ensures Value(x) == a.Signed()
  {
    SignificantBitsLeast(a.Signed(), SignificantBits(a.Signed()));
    WrapFits(SignificantBits(a.Signed()), a.Signed());
    SExtOrTrunc(a, SignificantBits(a.Signed()))
  }

  /** Constructor from a small integer constant of the code. */
  function FromInt(v: int): (x: IPInt)
    ensures Value(x) == v
  {
    SignificantBitsLeast(v, SignificantBits(v));
    WrapFits(SignificantBits(v), v);
    Wrap(SignificantBits(v), v)
  }

  /** Constructor from a 64-bit unsigned word: the word becomes a 64-bit pattern, then is normalised. */
  function FromUint64(u: nat): (x: IPInt)
    requires u < Pow2(64)
  {
    FromAPInt(APInt(64, u))
  }

  datatype CmpOp = Sgt | Sge | Slt | Sle {
    predicate Holds(a: int, b: int) {
      match this
      case Sgt => a > b
      case Sge => a >= b
      case Slt => a < b
      case Sle => a <= b
    }
  }

  predicate Cmp(l: IPInt, r: IPInt, op: CmpOp) {
    var useL, useR := l.width > r.width, l.width < r.width;
    var lExt := if useL then l else SExtOrTrunc(l, r.width);
    var rExt := if useR then r else SExtOrTrunc(r, l.width);
    op.Holds(lExt.Signed(), rExt.Signed())
  }

  /** Equality compares widths and patterns, never values. */
  predicate Eq(l: IPInt, r: IPInt) {
    l.width == r.width && l.bits == r.bits
  }

  datatype BinOp = Add | Sub | Mul | Div | Mod | Lshift | Rshift | Bits(logic: Logic)

  /** Widths are 32-bit words. */
  const WIDTH_LIMIT: nat := 0x1_0000_0000

  predicate IsShift(op: BinOp) {
    op == Lshift || op == Rshift
  }

  /** The width a shift needs to keep every bit, before it is cut to 32 bits. */
  function ShiftWidth(l: IPInt, r: IPInt): nat {
    l.width + AbsWrapped(r).bits
  }

  /** Division needs a divisor; a shift needs an amount of 64 bits and a width that does not wrap to zero. */
  predicate Defined(l: IPInt, r: IPInt, op: BinOp) {
    match op
    case Div => Value(r) != 0
    case Mod => Value(r) != 0
    case Lshift => Abs(Value(r)) < Pow2(64) && ShiftWidth(l, r) % WIDTH_LIMIT != 0
    case Rshift => Abs(Value(r)) < Pow2(64) && ShiftWidth(l, r) % WIDTH_LIMIT != 0
    case _ => true
  }

  /** The width at which an operation is carried out. A shift's width wraps around. */
  function WidthUse(l: IPInt, r: IPInt, op: BinOp): (w: nat)
    requires Defined(l, r, op)
    ensures w >= 1
  {
    match op
    case Add => l.width + r.width
    case Sub => l.width + r.width
    case Mul => l.width + r.width
    case Div => l.width + r.width
    case Lshift => ShiftWidth(l, r) % WIDTH_LIMIT
    case Rshift => ShiftWidth(l, r) % WIDTH_LIMIT
    case _ => if l.width > r.width then l.width else r.width
  }

  function Binop(l: IPInt, r: IPInt, op: BinOp): (x: IPInt)
    requires Defined(l, r, op)
  {
    var w := WidthUse(l, r, op);
    var lExt, rExt := SExtOrTrunc(l, w), SExtOrTrunc(r, w);
    FromAPInt(
      match op
      case Add => SAddSat(lExt, rExt)
      case Sub => SSubSat(lExt, rExt)
      case Mul => SMulSat(lExt, rExt)
      case Div => OperandsSurvive(l, r, op); SDiv(lExt, rExt)
      case Mod => OperandsSurvive(l, r, op); SRem(lExt, rExt)
      case Lshift => Shl(lExt, rExt)
      case Rshift => AShr(lExt, rExt)
      case Bits(logic) => Bitwise(logic, lExt, rExt))
  }

  // ---------- Widths

  /** SignificantBits is the least width: a number fits exactly the widths from there up. */
  lemma {:induction false} SignificantBitsLeast(v: int, w: nat)
    requires w >= 1
    ensures Fits(w, v) <==> SignificantBits(v) <= w
    decreases Abs(v)
  {
    if v == 0 || v == -1 {
    } else if w == 1 {
    } else {
      SignificantBitsLeast(v / 2, w - 1);
      assert Pow2(w - 1) == 2 * Pow2(w - 2);
    }
  }

  lemma Extend(x: IPInt, w: nat)
    requires w >= x.width
    ensures Fits(w, Value(x)) && SExtOrTrunc(x, w).Signed() == Value(x)
  {
    SignificantBitsLeast(Value(x), w);
    WrapFits(w, Value(x));
  }

  /** The unsigned pattern of the absolute value is the magnitude, also for the most negative pattern. */
  lemma AbsPattern(x: IPInt)
    ensures AbsWrapped(x).bits == Abs(Value(x))
  {
    SignedFits(x);
    var v, m := Value(x), Pow2(x.width);
    assert m == 2 * Pow2(x.width - 1);
    if v < 0 {
      DivModUnique(-v, m, 0, -v);
    }
  }

  /** A number needs at most one bit more than its magnitude counts. */
  lemma WidthBelowMagnitude(x: IPInt)
    ensures x.width <= Abs(Value(x)) + 1
  {
    var n := Abs(Value(x)) + 1;
    Pow2ExceedsLinear(n - 1);
    SignificantBitsLeast(Value(x), n);
  }

  /** No shift width wraps around. */
  predicate Roomy(l: IPInt, r: IPInt, op: BinOp) {
    IsShift(op) ==> l.width + Abs(Value(r)) < WIDTH_LIMIT
  }

  lemma RoomyWidth(l: IPInt, r: IPInt, op: BinOp)
    requires IsShift(op) && Defined(l, r, op) && Roomy(l, r, op)
    ensures WidthUse(l, r, op) == l.width + Abs(Value(r))
  {
    hide Pow2, SignificantBits;
    AbsPattern(r);
  }

  /** The width of an operation is never below an operand's, unless it wraps around. */
  lemma WidthIsEnough(l: IPInt, r: IPInt, op: BinOp)
    requires Defined(l, r, op) && Roomy(l, r, op)
    ensures WidthUse(l, r, op) >= l.width && WidthUse(l, r, op) >= r.width
  {
    hide Pow2, SignificantBits;
    WidthBelowMagnitude(r);
    if IsShift(op) {
      RoomyWidth(l, r, op);
    }
  }

  /** Both operands keep their value at the width of the operation, unless it wraps around. */
  lemma OperandsSurvive(l: IPInt, r: IPInt, op: BinOp)
    requires Defined(l, r, op) && Roomy(l, r, op)
    ensures WidthUse(l, r, op) >= l.width && WidthUse(l, r, op) >= r.width
    ensures SExtOrTrunc(l, WidthUse(l, r, op)).Signed() == Value(l)
    ensures SExtOrTrunc(r, WidthUse(l, r, op)).Signed() == Value(r)
  {
    hide Pow2, SignificantBits, WidthUse, Defined;
    WidthIsEnough(l, r, op);
    Extend(l, WidthUse(l, r, op));
    Extend(r, WidthUse(l, r, op));
  }

  // ---------- Equality and order

  /** Structural equality is equality of the numbers. */
  lemma EqIsValueEquality(l: IPInt, r: IPInt)
    ensures Eq(l, r) <==> Value(l) == Value(r)
  {
    SignedFits(l);
    SignedFits(r);
  }

  lemma CmpHolds(l: IPInt, r: IPInt, op: CmpOp)
    ensures Cmp(l, r, op) <==> op.Holds(Value(l), Value(r))
  {
    var w := if l.width > r.width then l.width else r.width;
    Extend(l, w);
    Extend(r, w);
  }

  /** Each comparison is the comparison of the numbers, whatever the widths. */
  lemma CmpIsOrder(l: IPInt, r: IPInt)
    ensures Cmp(l, r, Sgt) <==> Value(l) > Value(r)
    ensures Cmp(l, r, Sge) <==> Value(l) >= Value(r)
    ensures Cmp(l, r, Slt) <==> Value(l) < Value(r)
    ensures Cmp(l, r, Sle) <==> Value(l) <= Value(r)
  {
    hide Cmp;
    CmpHolds(l, r, Sgt);
    CmpHolds(l, r, Sge);
    CmpHolds(l, r, Slt);
    CmpHolds(l, r, Sle);
  }

  /** A 64-bit word is read as signed: the constructor keeps exactly the words below 2^63. */
  lemma FromUint64Keeps(u: nat)
    requires u < Pow2(64)
    ensures Value(FromUint64(u)) == u <==> u < Pow2(63)
    ensures u >= Pow2(63) ==> Value(FromUint64(u)) == u - Pow2(64)
  {
  }

  // ---------- Arithmetic

  lemma SumFits(a: nat, b: nat, x: int, y: int)
    requires a >= 1 && b >= 1 && Fits(a, x) && Fits(b, y)
    ensures Fits(a + b, x + y) && Fits(a + b, x - y)
  {
    Pow2Monotone(a - 1, a + b - 2);
    Pow2Monotone(b - 1, a + b - 2);
    assert Pow2(a + b - 1) == 2 * Pow2(a + b - 2);
  }

  lemma ProductFits(a: nat, b: nat, x: int, y: int)
    requires a >= 1 && b >= 1 && Fits(a, x) && Fits(b, y)
    ensures Fits(a + b, x * y)
  {
    AbsMul(x, y);
    MulMonotone(Abs(x), Abs(y), Pow2(a - 1), Pow2(b - 1));
    Pow2Add(a - 1, b - 1);
    DoubledExceeds(x * y, Pow2(a + b - 2));
    assert Pow2(a + b - 1) == 2 * Pow2(a + b - 2);
  }

  lemma DoubledExceeds(v: int, p: int)
    requires Abs(v) <= p && p >= 1
    ensures -2 * p <= v < 2 * p
  {
  }

  /** At the sum of the widths, sums, differences and products never saturate. */
  lemma AddSubMulExact(l: IPInt, r: IPInt)
    ensures Value(Binop(l, r, Add)) == Value(l) + Value(r)
    ensures Value(Binop(l, r, Sub)) == Value(l) - Value(r)
    ensures Value(Binop(l, r, Mul)) == Value(l) * Value(r)
  {
    AddExact(l, r);
    SubExact(l, r);
    MulExact(l, r);
  }

  lemma AddExact(l: IPInt, r: IPInt)
    ensures Value(Binop(l, r, Add)) == Value(l) + Value(r)
  {
    hide Pow2, SignificantBits;
    var w := l.width + r.width;
    OperandsSurvive(l, r, Add);
    SignedFits(l);
    SignedFits(r);
    SumFits(l.width, r.width, Value(l), Value(r));
    SAddSatExact(SExtOrTrunc(l, w), SExtOrTrunc(r, w));
  }

  lemma SubExact(l: IPInt, r: IPInt)
    ensures Value(Binop(l, r, Sub)) == Value(l) - Value(r)
  {
    hide Pow2, SignificantBits;
    var w := l.width + r.width;
    OperandsSurvive(l, r, Sub);
    SignedFits(l);
    SignedFits(r);
    SumFits(l.width, r.width, Value(l), Value(r));
    SSubSatExact(SExtOrTrunc(l, w), SExtOrTrunc(r, w));
  }

  lemma MulExact(l: IPInt, r: IPInt)
    ensures Value(Binop(l, r, Mul)) == Value(l) * Value(r)
  {
    hide Pow2, SignificantBits;
    var w := l.width + r.width;
    OperandsSurvive(l, r, Mul);
    SignedFits(l);
    SignedFits(r);
    ProductFits(l.width, r.width, Value(l), Value(r));
    SMulSatExact(SExtOrTrunc(l, w), SExtOrTrunc(r, w));
  }

  lemma DivExact(l: IPInt, r: IPInt)
    requires Value(r) != 0
    ensures Value(Binop(l, r, Div)) == TruncDiv(Value(l), Value(r))
  {
    hide SignificantBits;
    OperandsSurvive(l, r, Div);
    TruncDivRem(Value(l), Value(r));
    SignedFits(l);
    var w := WidthUse(l, r, Div);
    assert Pow2(l.width) == 2 * Pow2(l.width - 1);
    Pow2Monotone(l.width, w - 1);
    WrapFits(w, TruncDiv(Value(l), Value(r)));
  }

  lemma ModExact(l: IPInt, r: IPInt)
    requires Value(r) != 0
    ensures Value(Binop(l, r, Mod)) == TruncRem(Value(l), Value(r))
  {
    hide SignificantBits;
    OperandsSurvive(l, r, Mod);
    TruncDivRem(Value(l), Value(r));
    SignedFits(r);
    var w := WidthUse(l, r, Mod);
    Pow2Monotone(r.width - 1, w - 1);
    WrapFits(w, TruncRem(Value(l), Value(r)));
  }

  /** Division and remainder are exact truncating ones; the most negative number over -1 does not wrap. */
  lemma DivModExact(l: IPInt, r: IPInt)
    requires Value(r) != 0
    ensures Value(Binop(l, r, Div)) == TruncDiv(Value(l), Value(r))
    ensures Value(Binop(l, r, Mod)) == TruncRem(Value(l), Value(r))
  {
    hide Binop;
    DivExact(l, r);
    ModExact(l, r);
  }

  // ---------- Shifts

  lemma SmallPattern(w: nat, n: nat)
    requires w >= 1 && n < Pow2(w)
    ensures Wrap(w, n).bits == n
  {
    DivModUnique(n, Pow2(w), 0, n);
  }

  /** A non-negative amount is below the width and keeps its unsigned reading. */
  lemma AmountSurvives(l: IPInt, r: IPInt, op: BinOp)
    requires IsShift(op) && Defined(l, r, op) && Roomy(l, r, op) && Value(r) >= 0
    ensures WidthUse(l, r, op) == l.width + Value(r)
    ensures SExtOrTrunc(r, WidthUse(l, r, op)).bits == Value(r) < WidthUse(l, r, op)
  {
    hide Pow2, SignificantBits, WidthUse;
    RoomyWidth(l, r, op);
    var w := l.width + Value(r);
    Pow2ExceedsLinear(w);
    SmallPattern(w, Value(r));
  }

  /** A negative amount reads as an unsigned number of at least the width. */
  lemma NegativeAmountIsHuge(l: IPInt, r: IPInt, op: BinOp)
    requires IsShift(op) && Defined(l, r, op) && Roomy(l, r, op) && Value(r) < 0
    ensures SExtOrTrunc(r, WidthUse(l, r, op)).bits >= WidthUse(l, r, op)
  {
    hide Pow2, SignificantBits, WidthUse;
    RoomyWidth(l, r, op);
    NegativePattern(l.width - Value(r), Value(r));
  }

  lemma NegativePattern(w: nat, v: int)
    requires v < 0 && w >= 1 - v
    ensures Wrap(w, v).bits >= w
  {
    Pow2ExceedsLinear(w);
    DivModUnique(v, Pow2(w), -1, v + Pow2(w));
  }

  lemma ShiftedFits(a: nat, x: int, n: nat)
    requires a >= 1 && Fits(a, x)
    ensures Fits(a + n, x * Pow2(n))
  {
    Pow2Add(a - 1, n);
    ScaledBounds(-Pow2(a - 1), x, Pow2(a - 1) - 1, Pow2(n));
  }

  lemma ScaledBounds(lo: int, x: int, hi: int, m: int)
    requires lo <= x <= hi && m >= 1
    ensures lo * m <= x * m <= hi * m < (hi + 1) * m
    ensures (-lo) * m == -(lo * m)
  {
    assert (x - lo) * m >= 0;
    assert (hi - x) * m >= 0;
  }

  /** The operands of a shift at its width. */
  function Widened(l: IPInt, r: IPInt, op: BinOp): (p: (APInt, APInt))
    requires IsShift(op) && Defined(l, r, op)
    ensures SameWidth(p.0, p.1) && p.0.width == WidthUse(l, r, op)
  {
    var w := WidthUse(l, r, op);
    (SExtOrTrunc(l, w), SExtOrTrunc(r, w))
  }

  lemma LshiftByNatural(l: IPInt, r: IPInt)
    requires Defined(l, r, Lshift) && Roomy(l, r, Lshift) && Value(r) >= 0
    ensures Value(Binop(l, r, Lshift)) == Value(l) * Pow2(Value(r))
  {
    hide Pow2, SignificantBits;
    var (lExt, rExt) := Widened(l, r, Lshift);
    OperandsSurvive(l, r, Lshift);
    AmountSurvives(l, r, Lshift);
    SignedFits(l);
    ShiftedFits(l.width, Value(l), Value(r));
    ShlInRange(lExt, rExt);
  }

  /** A sum that wraps around falls below both of its parts. */
  lemma WrappedSumIsSmall(a: nat, b: nat, m: nat)
    requires a < m <= a + b
    ensures (a + b) % m <= b
  {
    var q, rest := (a + b) / m, (a + b) % m;
    assert a + b == q * m + rest;
    if q >= 1 { MulMonotone(1, m, q, m); }
  }

  lemma LeastMagnitude(v: int, p: int)
    requires v != 0 && p >= 1
    ensures Abs(v * p) >= p
  {
    AbsMul(v, p);
    MulMonotone(1, p, Abs(v), p);
  }

  /** A left shift whose width wraps around cannot hold its exact result. */
  lemma WrappedLshiftIsSmall(l: IPInt, r: IPInt)
    requires Defined(l, r, Lshift) && Value(r) >= 0 && l.width < WIDTH_LIMIT <= l.width + Value(r)
    ensures Abs(Value(Binop(l, r, Lshift))) < Pow2(Value(r))
  {
    hide SignificantBits;
    AbsPattern(r);
    var w := WidthUse(l, r, Lshift);
    WrappedSumIsSmall(l.width, Value(r), WIDTH_LIMIT);
    var (lExt, rExt) := Widened(l, r, Lshift);
    SignedFits(Shl(lExt, rExt));
    Pow2Monotone(w, Value(r));
    assert Pow2(w) == 2 * Pow2(w - 1);
  }

  lemma LshiftOfZero(l: IPInt, r: IPInt)
    requires Defined(l, r, Lshift) && Value(l) == 0
    ensures Value(Binop(l, r, Lshift)) == 0
  {
    hide SignificantBits;
    var (lExt, rExt) := Widened(l, r, Lshift);
    WrapFits(lExt.width, 0);
    assert lExt.bits == 0;
  }

  /** Left shift by r is multiplication by 2^r if and only if the number is zero or the width does not wrap around. */
  lemma LshiftExactly(l: IPInt, r: IPInt)
    requires Defined(l, r, Lshift) && Value(r) >= 0 && l.width < WIDTH_LIMIT
    ensures Value(Binop(l, r, Lshift)) == Value(l) * Pow2(Value(r)) <==> Value(l) == 0 || Roomy(l, r, Lshift)
  {
    hide SignificantBits, Binop, Pow2;
    if Value(l) == 0 {
      LshiftOfZero(l, r);
    } else if Roomy(l, r, Lshift) {
      LshiftByNatural(l, r);
    } else {
      WrappedLshiftIsSmall(l, r);
      LeastMagnitude(Value(l), Pow2(Value(r)));
    }
  }

  /** Left shift by a negative amount is zero unless the width wraps around. */
  lemma LshiftByNegative(l: IPInt, r: IPInt)
    requires Defined(l, r, Lshift) && Roomy(l, r, Lshift) && Value(r) < 0
    ensures Value(Binop(l, r, Lshift)) == 0
  {
    NegativeAmountIsHuge(l, r, Lshift);
  }

  lemma FloorFits(v: int, m: int, p: int)
    requires -p <= v < p && m >= 1
    ensures -p <= v / m < p
  {
    var q, r := v / m, v % m;
    assert v == q * m + r;
    if q >= 1 {
      MulMonotone(q, 1, q, m);
    } else if q < 0 {
      MulMonotone(-q - 1, 1, -q - 1, m);
      assert (-q - 1) * m == -(q * m) - m;
    }
  }

  /** Right shift by r is the floor of division by 2^r, and by a negative amount only the sign remains, unless the
      width wraps around. */
  lemma RshiftExact(l: IPInt, r: IPInt)
    requires Defined(l, r, Rshift) && Roomy(l, r, Rshift)
    ensures Value(r) >= 0 ==> Value(Binop(l, r, Rshift)) == Value(l) / Pow2(Value(r))
    ensures Value(r) < 0 ==> Value(Binop(l, r, Rshift)) == if Value(l) < 0 then -1 else 0
  {
    OperandsSurvive(l, r, Rshift);
    var w := WidthUse(l, r, Rshift);
    Extend(l, w);
    if Value(r) >= 0 {
      AmountSurvives(l, r, Rshift);
      FloorFits(Value(l), Pow2(Value(r)), Pow2(w - 1));
      WrapFits(w, Value(l) / Pow2(Value(r)));
    } else {
      NegativeAmountIsHuge(l, r, Rshift);
      WrapFits(w, if Value(l) < 0 then -1 else 0);
    }
  }

  /** What a right shift should give: the floor of the quotient, and the sign for a negative amount. */
  function ExactRshift(l: IPInt, r: IPInt): int {
    if Value(r) >= 0 then Value(l) / Pow2(Value(r)) else if Value(l) < 0 then -1 else 0
  }

  /** A quotient by a power of two is the sign exactly when the number has at most one bit more. */
  lemma QuotientIsSign(v: int, a: nat)
    ensures v / Pow2(a) == 0 <==> v >= 0 && Fits(a + 1, v)
    ensures v / Pow2(a) == -1 <==> v < 0 && Fits(a + 1, v)
  {
    var p, q, r := Pow2(a), v / Pow2(a), v % Pow2(a);
    assert v == q * p + r;
    hide Pow2;
    if q >= 1 {
      MulMonotone(1, p, q, p);
    } else if q <= -2 {
      MulMonotone(2, p, -q, p);
      assert (-q) * p == -(q * p);
    }
  }

  /** A shift by at least the width of the number less one leaves only its sign. */
  lemma LongRshiftIsSign(l: IPInt, r: IPInt)
    requires Value(r) >= 0 ==> l.width <= Value(r) + 1
    ensures ExactRshift(l, r) == if Value(l) < 0 then -1 else 0
  {
    hide Pow2, SignificantBits;
    if Value(r) >= 0 {
      SignedFits(l);
      Pow2Monotone(l.width - 1, Value(r));
      QuotientIsSign(Value(l), Value(r));
    }
  }

  /** The number a right shift computes, from what is left of its operands at the width it uses. */
  lemma RshiftComputes(l: IPInt, r: IPInt)
    requires Defined(l, r, Rshift)
    ensures var w := WidthUse(l, r, Rshift);
      var n, a := Wrap(w, Value(l)).Signed(), Value(r) % Pow2(w);
      Value(Binop(l, r, Rshift)) == if a >= w then (if n < 0 then -1 else 0) else n / Pow2(a)
  {
    hide SignificantBits, WidthUse;
    var w := WidthUse(l, r, Rshift);
    var (lExt, rExt) := Widened(l, r, Rshift);
    var n, a := lExt.Signed(), rExt.bits;
    SignedFits(lExt);
    if a >= w {
      WrapFits(w, if n < 0 then -1 else 0);
    } else {
      FloorFits(n, Pow2(a), Pow2(w - 1));
      WrapFits(w, n / Pow2(a));
    }
  }

  /** A right shift is exact if and only if its width does not wrap around, or the amount is at least the number's width
      less one, and what is left of the number at the wrapped width w has its sign and, when what is left of the amount
      is below w, at most one bit more than that amount. */
  lemma RshiftExactly(l: IPInt, r: IPInt)
    requires Defined(l, r, Rshift) && l.width < WIDTH_LIMIT
    requires l.width <= WIDTH_LIMIT / 2 || l.width <= Abs(Value(r)) + 1 || ShiftWidth(l, r) % WIDTH_LIMIT >= 32
    ensures var w := (l.width + Abs(Value(r))) % WIDTH_LIMIT;
      && w >= 1
      && var n, a := Wrap(w, Value(l)).Signed(), Value(r) % Pow2(w);
      Value(Binop(l, r, Rshift)) == ExactRshift(l, r) <==>
      || Roomy(l, r, Rshift)
      || ((Value(r) >= 0 ==> l.width <= Value(r) + 1) &&
          (n < 0 <==> Value(l) < 0) && (a < w ==> Fits(a + 1, n)))
  {
    hide SignificantBits, Binop, Pow2;
    AbsPattern(r);
    var w := WidthUse(l, r, Rshift);
    if Roomy(l, r, Rshift) {
      RshiftExact(l, r);
    } else {
      RshiftComputes(l, r);
      var n, a := Wrap(w, Value(l)).Signed(), Value(r) % Pow2(w);
      if Value(r) >= 0 && l.width > Value(r) + 1 {
        CutAmountIsWhole(l, r, w);
        NotJustSign(l, r);
      } else {
        LongRshiftIsSign(l, r);
        QuotientIsSign(n, a);
      }
    }
  }

  /** An amount below the number's width is whole at a wrapped width of 32 or more, and at least that width. */
  lemma CutAmountIsWhole(l: IPInt, r: IPInt, w: nat)
    requires Value(r) >= 0 && Value(r) + 1 < l.width < WIDTH_LIMIT <= l.width + Value(r)
    requires w == (l.width + Value(r)) % WIDTH_LIMIT && w >= 32
    ensures Value(r) % Pow2(w) == Value(r) >= w
  {
    hide Pow2, SignificantBits;
    DivModUnique(l.width + Value(r), WIDTH_LIMIT, 1, l.width + Value(r) - WIDTH_LIMIT);
    WidthLimitIsPower();
    Pow2Monotone(32, w);
    DivModUnique(Value(r), Pow2(w), 0, Value(r));
  }

  /** A shift by less than the number's width less one leaves more than a sign. */
  lemma NotJustSign(l: IPInt, r: IPInt)
    requires Value(r) >= 0 && l.width > Value(r) + 1
    ensures ExactRshift(l, r) != 0 && ExactRshift(l, r) != -1
  {
    hide Pow2, SignificantBits;
    QuotientIsSign(Value(l), Value(r));
    SignificantBitsLeast(Value(l), Value(r) + 1);
  }

  /** A left shift by a negative amount is zero if and only if its width does not wrap around, or what is left of the
      amount at the wrapped width w is at least w, or moves every bit that is left of the number out. */
  lemma LshiftByNegativeExactly(l: IPInt, r: IPInt)
    requires Defined(l, r, Lshift) && Value(r) < 0
    ensures var w := (l.width + Abs(Value(r))) % WIDTH_LIMIT;
      && w >= 1
      && var a := Value(r) % Pow2(w);
      Value(Binop(l, r, Lshift)) == 0 <==>
      Roomy(l, r, Lshift) || a >= w || Value(l) * Pow2(a) % Pow2(w) == 0
  {
    hide SignificantBits, Pow2;
    AbsPattern(r);
    var w := WidthUse(l, r, Lshift);
    if Roomy(l, r, Lshift) {
      LshiftByNegative(l, r);
    } else {
      var (lExt, rExt) := Widened(l, r, Lshift);
      var a := rExt.bits;
      if a < w {
        CutProduct(Value(l), Pow2(a), Pow2(w));
        ZeroPattern(Shl(lExt, rExt));
      }
    }
  }

  lemma CutProduct(v: int, p: nat, m: nat)
    requires m >= 1
    ensures v % m * p % m == v * p % m
  {
    var q, r := v / m, v % m;
    assert v == q * m + r;
    assert v * p == (q * p) * m + r * p;
    var k, e := r * p / m, r * p % m;
    assert r * p == k * m + e;
    assert v * p == (q * p + k) * m + e by { assert (q * p + k) * m == (q * p) * m + k * m; }
    DivModUnique(v * p, m, q * p + k, e);
  }

  lemma ZeroPattern(x: APInt)
    requires x.Valid()
    ensures x.Signed() == 0 <==> x.bits == 0
  {
    hide Pow2;
  }

  lemma MultipleVanishes(p: nat, m: nat, q: nat, a: nat)
    requires p == m * q && a < m
    ensures (p + a) % m == a
  {
    DivModUnique(p + a, m, q, a);
  }

  /** A multiple of a larger power of two disappears when the pattern is cut. */
  lemma CutAmount(w: nat, n: nat, a: nat)
    requires 1 <= w <= n && a < Pow2(w)
    ensures Wrap(w, Pow2(n) + a).bits == a
  {
    hide Pow2;
    Pow2Add(w, n - w);
    MultipleVanishes(Pow2(n), Pow2(w), Pow2(n - w), a);
  }

  lemma WidthLimitIsPower()
    ensures Pow2(32) == WIDTH_LIMIT
  {
    Pow2Add(8, 8);
    Pow2Add(16, 16);
    assert Pow2(8) == 256;
  }

  /** What a shift by 2^32 + a works with, when l and a are small: the width and the amount of a shift by a. */
  lemma WrappedShift(l: IPInt, r: IPInt, a: nat, op: BinOp)
    requires IsShift(op) && Value(r) == WIDTH_LIMIT + a && l.width + a <= 32
    ensures Defined(l, r, op) && WidthUse(l, r, op) == l.width + a
    ensures var w := WidthUse(l, r, op);
      SExtOrTrunc(l, w).Signed() == Value(l) && SExtOrTrunc(r, w).bits == a < w
  {
    hide Pow2, SignificantBits;
    AbsPattern(r);
    var w := l.width + a;
    DivModUnique(l.width + Value(r), WIDTH_LIMIT, 1, w);
    WidthLimitIsPower();
    Pow2Add(32, 32);
    MulMonotone(2, WIDTH_LIMIT, Pow2(32), Pow2(32));
    Extend(l, w);
    Pow2ExceedsLinear(w);
    CutAmount(w, 32, a);
  }

  /** A right shift of a small number by 2^32 + a shifts by a alone. */
  lemma RshiftForgets(l: IPInt, r: IPInt, a: nat)
    requires Value(r) == WIDTH_LIMIT + a && l.width + a <= 32
    ensures Defined(l, r, Rshift) && Value(Binop(l, r, Rshift)) == Value(l) / Pow2(a)
  {
    hide SignificantBits;
    WrappedShift(l, r, a, Rshift);
    var w := WidthUse(l, r, Rshift);
    Extend(l, w);
    FloorFits(Value(l), Pow2(a), Pow2(w - 1));
    WrapFits(w, Value(l) / Pow2(a));
  }

  /** The width of 100 is eight bits. */
  lemma WidthOfHundred()
    ensures SignificantBits(100) == 8
  {
    assert SignificantBits(3) == 3;
    assert SignificantBits(12) == 5;
    assert SignificantBits(50) == 7;
  }

  /** 100 shifted right by 2^32 + 5 is 3, although the floor of the quotient is zero. */
  lemma HugeRshiftIsWrong()
    ensures var l, r := FromInt(100), FromInt(0x1_0000_0005);
      Defined(l, r, Rshift) && Value(Binop(l, r, Rshift)) == 3 != Value(l) / Pow2(Value(r))
  {
    hide *;
    HundredShifted(FromInt(100), FromInt(0x1_0000_0005));
  }

  lemma HundredShifted(l: IPInt, r: IPInt)
    requires Value(l) == 100 && Value(r) == 0x1_0000_0005
    ensures Defined(l, r, Rshift) && Value(Binop(l, r, Rshift)) == 3 != Value(l) / Pow2(Value(r))
  {
    hide Binop, Defined, SignificantBits, Pow2;
    WidthOfHundred();
    assert l.width == 8;
    RshiftForgets(l, r, 5);
    SmallPowers();
    SmallQuotient(100, Value(r));
  }

  lemma SmallPowers()
    ensures Pow2(5) == 32 && Pow2(7) == 128
  {
  }

  lemma SmallQuotient(v: nat, n: nat)
    requires v < 128 && n >= 7
    ensures v / Pow2(n) == 0
  {
    hide Pow2;
    SmallPowers();
    Pow2Monotone(7, n);
    DivModUnique(v, Pow2(n), 0, v);
  }

  lemma LogicBit(l: IPInt, r: IPInt, op: Logic, i: nat)
    ensures Bit(Value(Binop(l, r, Bits(op))), i) == op.Apply(Bit(Value(l), i), Bit(Value(r), i))
  {
    OperandsSurvive(l, r, Bits(op));
    var w := WidthUse(l, r, Bits(op));
    BitwiseIsInfinite(op, SExtOrTrunc(l, w), SExtOrTrunc(r, w), i);
  }

  /** And, or and xor act on every bit of the infinite two's complement forms, for operands of any sign and width. */
  lemma LogicExact(l: IPInt, r: IPInt, i: nat)
    ensures Bit(Value(Binop(l, r, Bits(And))), i) <==> Bit(Value(l), i) && Bit(Value(r), i)
    ensures Bit(Value(Binop(l, r, Bits(Or))), i) <==> Bit(Value(l), i) || Bit(Value(r), i)
    ensures Bit(Value(Binop(l, r, Bits(Xor))), i) <==> Bit(Value(l), i) != Bit(Value(r), i)
  {
    hide Binop, Bit;
    LogicBit(l, r, And, i);
    LogicBit(l, r, Or, i);
    LogicBit(l, r, Xor, i);
  }

  lemma LogicAt(l: IPInt, r: IPInt, op: Logic)
    ensures var w := if l.width > r.width then l.width else r.width;
      && Value(Binop(l, r, Bits(op))) == Bitwise(op, SExtOrTrunc(l, w), SExtOrTrunc(r, w)).Signed()
      && SExtOrTrunc(l, w).Signed() == Value(l) && SExtOrTrunc(r, w).Signed() == Value(r)
  {
    hide Pow2, SignificantBits, Bitwise;
    OperandsSurvive(l, r, Bits(op));
  }

  /** Over unbounded numbers: and plus or is the sum, and xor is or minus and. */
  lemma LogicLaws(l: IPInt, r: IPInt)
    ensures Value(Binop(l, r, Bits(And))) + Value(Binop(l, r, Bits(Or))) == Value(l) + Value(r)
    ensures Value(Binop(l, r, Bits(Xor))) == Value(Binop(l, r, Bits(Or))) - Value(Binop(l, r, Bits(And)))
  {
    hide Binop, Bitwise, Pow2, SignificantBits;
    var w := if l.width > r.width then l.width else r.width;
    LogicAt(l, r, And);
    LogicAt(l, r, Or);
    LogicAt(l, r, Xor);
    BitwiseLaws(SExtOrTrunc(l, w), SExtOrTrunc(r, w));
  }
}
