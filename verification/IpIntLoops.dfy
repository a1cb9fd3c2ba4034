/** The algorithms over infinite-precision integers: absolute value, gcd and exponentiation. */
module IpIntLoops {
  import opened Powers
  import opened ApInt
  import opened IpInt
  import opened Euclid

  function Neg(x: IPInt): IPInt {
    Binop(FromInt(0), x, Sub)
  }

  function AbsOf(x: IPInt): IPInt {
    if Cmp(x, FromInt(0), Slt) then Binop(FromInt(0), x, Sub) else x
  }

  lemma AbsOfExact(x: IPInt)
    ensures Value(AbsOf(x)) == Abs(Value(x))
    ensures Value(Neg(x)) == -Value(x)
  {
    CmpIsOrder(x, FromInt(0));
    AddSubMulExact(FromInt(0), x);
  }

  /** Euclid's loop over normalised integers returns a greatest common divisor of its arguments. */
  method GcdOf(lhs: IPInt, rhs: IPInt) returns (l: IPInt)
    ensures Value(l) == Gcd(Value(lhs), Value(rhs))
    ensures IsGcd(Value(l), Value(lhs), Value(rhs))
  {
    l := lhs;
    var r := rhs;
    EqIsValueEquality(r, FromInt(0));
    while !Eq(r, FromInt(0))
      invariant Gcd(Value(l), Value(r)) == Gcd(Value(lhs), Value(rhs))
      invariant Eq(r, FromInt(0)) <==> Value(r) == 0
      decreases Abs(Value(r))
    {
      var tmp := r;
      DivModExact(l, r);
      TruncDivRem(Value(l), Value(r));
      r := Binop(l, r, Mod);
      l := tmp;
      EqIsValueEquality(r, FromInt(0));
    }
    GcdIsGcd(Value(lhs), Value(rhs));
  }

  /** The power for e >= 0, and the reciprocal power rounded toward zero for e < 0. */
  function TruncatedPower(b: int, e: int): int
    requires b != 0 || e >= 0
  {
    if e >= 0 then Power(b, e) else
    PowerNonZero(b, -e);
    TruncDiv(1, Power(b, -e))
  }

  lemma {:induction false} PowerNonZero(b: int, e: nat)
    requires b != 0
    ensures Power(b, e) != 0
  {
    if e == 0 {
    } else {
      PowerNonZero(b, e - 1);
      AbsMulAtLeast(b, Power(b, e - 1));
    }
  }

  lemma {:induction false} PowerOfUnit(b: int, e: nat)
    requires b in {1, -1}
    ensures Power(b, e) == if b == 1 || e % 2 == 0 then 1 else -1
  {
    if e == 0 {
    } else {
      PowerOfUnit(b, e - 1);
    }
  }

  lemma PowerLarge(b: int, e: nat)
    requires Abs(b) >= 2 && e >= 1
    ensures Abs(Power(b, e)) >= 2
  {
    PowerNonZero(b, e - 1);
    AbsMulAtLeast(Power(b, e - 1), b);
    assert Power(b, e) == Power(b, e - 1) * b;
  }

  lemma ReciprocalPower(b: int, e: int)
    requires b != 0 && e < 0
    ensures TruncatedPower(b, e) == if b == 1 || (b == -1 && e % 2 == 0) then 1 else if b == -1 then -1 else 0
  {
    if b in {1, -1} {
      PowerOfUnit(b, -e);
    } else {
      PowerNonZero(b, -e);
      PowerLarge(b, -e);
    }
  }

  /** Masking with 1 tests the parity of any magnitude. */
  lemma ParityMask(x: IPInt)
    ensures Eq(Binop(x, FromInt(1), Bits(And)), FromInt(0)) <==> Value(x) % 2 == 0
  {
    hide Binop, Eq, Pow2, SignificantBits, Canonical, Value, FromInt;
    var m := Binop(x, FromInt(1), Bits(And));
    forall i: nat ensures Bit(Value(m), i) == Bit(Value(x) % 2, i) {
      LogicExact(x, FromInt(1), i);
      LowestBitOnly(Value(x), i);
    }
    BitsDetermine(Value(m), Value(x) % 2);
    EqIsValueEquality(m, FromInt(0));
  }

  lemma LowestBitOnly(v: int, i: nat)
    ensures Bit(v % 2, i) == (Bit(v, i) && Bit(1, i))
  {
    if i > 0 {
      assert 1 / 2 == 0 && v % 2 / 2 == 0;
      AllSignBits(0, i - 1);
    }
  }

  /** One round of repeated squaring. */
  lemma SquareStep(result: int, base: int, e: int)
    requires e > 0
    ensures TruncRem(e, 2) == 1 ==> (result * base) * Power(base * base, TruncDiv(e, 2)) == result * Power(base, e)
    ensures TruncRem(e, 2) != 1 ==> result * Power(base * base, TruncDiv(e, 2)) == result * Power(base, e)
  {
    var h := e / 2;
    PowerSquare(base, h);
    if e % 2 == 1 {
      assert Power(base, e) == base * Power(base, 2 * h);
      assert (result * base) * Power(base, 2 * h) == result * (base * Power(base, 2 * h));
    }
  }

  lemma SquareOperations(result: IPInt, base: IPInt, e: IPInt)
    ensures Value(Binop(result, base, Mul)) == Value(result) * Value(base)
    ensures Value(Binop(base, base, Mul)) == Value(base) * Value(base)
    ensures Value(Binop(e, FromInt(2), Div)) == TruncDiv(Value(e), 2)
    ensures Eq(Binop(e, FromInt(2), Mod), FromInt(1)) <==> TruncRem(Value(e), 2) == 1
  {
    MulExact(result, base);
    MulExact(base, base);
    DivModExact(e, FromInt(2));
    EqIsValueEquality(Binop(e, FromInt(2), Mod), FromInt(1));
  }

  method ExponentiateNegative(base: IPInt, rhs: IPInt) returns (result: IPInt)
    requires Value(base) != 0 && Value(rhs) < 0
    ensures Value(result) == TruncatedPower(Value(base), Value(rhs))
  {
    hide Binop, Eq, AbsOf, TruncatedPower, Pow2, SignificantBits, Canonical, Value, FromInt;
    EqIsValueEquality(base, FromInt(1));
    EqIsValueEquality(base, FromInt(-1));
    ReciprocalPower(Value(base), Value(rhs));
    if Eq(base, FromInt(1)) {
      return FromInt(1);
    }
    if Eq(base, FromInt(-1)) {
      AbsOfExact(rhs);
      ParityMask(AbsOf(rhs));
      return FromInt(if Eq(Binop(AbsOf(rhs), FromInt(1), Bits(And)), FromInt(0)) then 1 else -1);
    }
    return FromInt(0);
  }

  /** Fast exponentiation equals the mathematical power, truncated toward zero for negative exponents. */
  method Exponentiate(lhs: IPInt, rhs: IPInt) returns (result: IPInt)
    requires Value(lhs) != 0 || Value(rhs) >= 0
    ensures Value(result) == TruncatedPower(Value(lhs), Value(rhs))
  {
    CmpIsOrder(rhs, FromInt(0));
    if Cmp(rhs, FromInt(0), Slt) {
      result := ExponentiateNegative(lhs, rhs);
      return;
    }
    var base := lhs;
    var e := rhs;
    result := FromInt(1);
    EqIsValueEquality(e, FromInt(0));
    while !Eq(e, FromInt(0))
      invariant Value(e) >= 0
      invariant Value(result) * Power(Value(base), Value(e)) == Power(Value(lhs), Value(rhs))
      invariant Eq(e, FromInt(0)) <==> Value(e) == 0
      decreases Value(e)
    {
      SquareStep(Value(result), Value(base), Value(e));
      SquareOperations(result, base, e);
      if Eq(Binop(e, FromInt(2), Mod), FromInt(1)) {
        result := Binop(result, base, Mul);
      }
      e := Binop(e, FromInt(2), Div);
      base := Binop(base, base, Mul);
      EqIsValueEquality(e, FromInt(0));
    }
  }
}
