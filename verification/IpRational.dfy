/** Arbitrary-precision rationals in lowest terms, compared structurally. */
module IpRational {
  import opened Powers
  import opened IpInt
  import opened IpIntLoops
  import opened Euclid

  datatype Fraction = Fraction(numerator: IPInt, denominator: IPInt) {
    function N(): int { Value(numerator) }
    function D(): int { Value(denominator) }
  }

  /** Lowest terms with a positive denominator: what every constructor establishes. */
  ghost predicate LowestTerms(q: Fraction) {
    q.D() > 0 && Coprime(q.N(), q.D())
  }

  /** What the canonicalising constructor leaves in its two fields. */
  function Reduced(n: IPInt, d: IPInt): (q: Fraction)
    requires Value(d) != 0
  {
    GcdIsGcd(Value(n), Value(d));
    var g := FromInt(Gcd(Value(n), Value(d)));
    var p, q := Binop(n, g, Div), Binop(d, g, Div);
    if Cmp(q, FromInt(0), Slt) then
      Fraction(Binop(p, FromInt(-1), Mul), Binop(q, FromInt(-1), Mul))
    else
      Fraction(p, q)
  }

  /** The constructor itself: divide by the gcd, then flip both signs if the denominator is negative. */
  method Construct(n: IPInt, d: IPInt) returns (q: Fraction)
    requires Value(d) != 0
    ensures q == Reduced(n, d)
    ensures LowestTerms(q) && q.N() * Value(d) == Value(n) * q.D()
  {
    GcdIsGcd(Value(n), Value(d));
    var gcd := GcdOf(n, d);
    EqIsValueEquality(gcd, FromInt(Gcd(Value(n), Value(d))));
    var numerator := Binop(n, gcd, Div);
    var denominator := Binop(d, gcd, Div);
    if Cmp(denominator, FromInt(0), Slt) {
      numerator := Binop(numerator, FromInt(-1), Mul);
      denominator := Binop(denominator, FromInt(-1), Mul);
    }
    q := Fraction(numerator, denominator);
    ReducedIsLowest(n, d);
  }

  /** Constructor from an integer. */
  function FromInteger(n: IPInt): Fraction {
    Fraction(n, FromInt(1))
  }

  predicate Equal(l: Fraction, r: Fraction) {
    Eq(l.numerator, r.numerator) && Eq(l.denominator, r.denominator)
  }

  /** The four comparisons: one cross multiplication, the rest derived from it and from equality. */
  predicate Compare(l: Fraction, r: Fraction, op: CmpOp)
    decreases match op case Sgt => 0 case Sge => 1 case Slt => 1 case Sle => 2
  {
    match op
    case Sgt => Cmp(Binop(l.numerator, r.denominator, Mul), Binop(l.denominator, r.numerator, Mul), Sgt)
    case Sge => Equal(l, r) || Compare(l, r, Sgt)
    case Slt => !Compare(l, r, Sgt) && !Equal(l, r)
    case Sle => Equal(l, r) || Compare(l, r, Slt)
  }

  datatype RationalOp = RAdd | RSub | RMul | RDiv

  function Arithmetic(l: Fraction, r: Fraction, op: RationalOp): Fraction
    requires LowestTerms(l) && LowestTerms(r)
    requires op == RDiv ==> r.N() != 0
  {
    var lN, lD, rN, rD := l.numerator, l.denominator, r.numerator, r.denominator;
    MulExact(lD, rD);
    MulExact(lD, rN);
    ProductNonZero(l.D(), r.D());
    ProductNonZero(l.D(), r.N());
    match op
    case RAdd => Reduced(Binop(Binop(lN, rD, Mul), Binop(rN, lD, Mul), Add), Binop(lD, rD, Mul))
    case RSub => Reduced(Binop(Binop(lN, rD, Mul), Binop(rN, lD, Mul), Sub), Binop(lD, rD, Mul))
    case RMul => Reduced(Binop(lN, rN, Mul), Binop(lD, rD, Mul))
    case RDiv => Reduced(Binop(lN, rD, Mul), Binop(lD, rN, Mul))
  }

  lemma ProductNonZero(a: int, b: int)
    requires a > 0
    ensures a * b == 0 <==> b == 0
    ensures b > 0 ==> a * b > 0
  {
  }

  function AbsRational(q: Fraction): Fraction
    requires LowestTerms(q)
  {
    if Cmp(q.numerator, FromInt(0), Slt) then
      IntegerIsLowest(FromInt(-1));
      Arithmetic(FromInteger(FromInt(-1)), q, RMul)
    else q
  }

  // ---------- Lowest terms

  /** The integer core of the constructor. */
  ghost predicate ReducesTo(n: int, d: int, p: int, q: int)
    requires d != 0
  {
    q > 0 && Coprime(p, q) && p * d == n * q
  }

  lemma ReduceIntegers(n: int, d: int, g: int, p: int, q: int)
    requires d != 0 && g == Gcd(n, d) && g != 0
    requires p == TruncDiv(n, g) && q == TruncDiv(d, g)
    ensures n == p * g && d == q * g && q != 0
    ensures q > 0 ==> ReducesTo(n, d, p, q)
    ensures q < 0 ==> ReducesTo(n, d, -p, -q)
  {
    GcdIsGcd(n, d);
    TruncDivExact(Quotient(g, n), g);
    TruncDivExact(Quotient(g, d), g);
    ReducedCoprime(n, d, p, q);
    CrossProducts(n, d, g, p, q);
    if q < 0 {
      CoprimeNegated(p, q);
    }
  }

  lemma CrossProducts(n: int, d: int, g: int, p: int, q: int)
    requires n == p * g && d == q * g
    ensures p * d == n * q && (-p) * d == n * (-q)
  {
    assert p * (q * g) == (p * g) * q;
  }

  lemma DividesNegated(d: int, a: int)
    ensures Divides(d, a) <==> Divides(d, -a)
  {
    if Divides(d, a) { Witness(d, -a, -Quotient(d, a)); }
    if Divides(d, -a) { Witness(d, a, -Quotient(d, -a)); }
  }

  lemma CoprimeNegated(p: int, q: int)
    requires Coprime(p, q)
    ensures Coprime(-p, -q)
  {
    GcdIsGcd(p, q);
    forall d ensures (Divides(d, p) <==> Divides(d, -p)) && (Divides(d, q) <==> Divides(d, -q)) {
      DividesNegated(d, p);
      DividesNegated(d, q);
    }
    GcdUnique(Gcd(p, q), -p, -q);
  }

  /** Every constructed rational is in lowest terms and has the value of its arguments. */
  lemma ReducedIsLowest(n: IPInt, d: IPInt)
    requires Value(d) != 0
    ensures LowestTerms(Reduced(n, d))
    ensures Reduced(n, d).N() * Value(d) == Value(n) * Reduced(n, d).D()
  {
    hide Binop, Cmp, Canonical, SignificantBits, Pow2;
    GcdIsGcd(Value(n), Value(d));
    var g := FromInt(Gcd(Value(n), Value(d)));
    DivModExact(n, g);
    DivModExact(d, g);
    var p, q := Binop(n, g, Div), Binop(d, g, Div);
    ReduceIntegers(Value(n), Value(d), Value(g), Value(p), Value(q));
    CmpIsOrder(q, FromInt(0));
    MulExact(p, FromInt(-1));
    MulExact(q, FromInt(-1));
  }

  /** Lowest terms are unique: structural equality is equality of cross products. */
  lemma LowestTermsUnique(l: Fraction, r: Fraction)
    requires LowestTerms(l) && LowestTerms(r)
    ensures Equal(l, r) <==> l.N() * r.D() == r.N() * l.D()
  {
    EqIsValueEquality(l.numerator, r.numerator);
    EqIsValueEquality(l.denominator, r.denominator);
    if l.N() * r.D() == r.N() * l.D() {
      EqualDenominators(l.N(), l.D(), r.N(), r.D());
    }
  }

  lemma EqualDenominators(p: int, q: int, n: int, d: int)
    requires q > 0 && d > 0 && Coprime(p, q) && Coprime(n, d)
    requires p * d == n * q
    ensures p == n && q == d
  {
    GcdSymmetricUnits(p, q);
    GcdSymmetricUnits(n, d);
    Witness(q, p * d, n);
    EuclidLemma(q, p, d);
    Witness(d, n * q, p);
    EuclidLemma(d, n, q);
    DividesMagnitude(q, d);
    DividesMagnitude(d, q);
    MulCancel(p, n, d);
  }

  /** Two constructed rationals are equal exactly when the fractions they came from are, for all signs. */
  lemma ConstructedEqual(n1: IPInt, d1: IPInt, n2: IPInt, d2: IPInt)
    requires Value(d1) != 0 && Value(d2) != 0
    ensures Equal(Reduced(n1, d1), Reduced(n2, d2)) <==> Value(n1) * Value(d2) == Value(n2) * Value(d1)
  {
    hide Reduced, Equal, Value, Canonical;
    var l, r := Reduced(n1, d1), Reduced(n2, d2);
    ReducedIsLowest(n1, d1);
    ReducedIsLowest(n2, d2);
    LowestTermsUnique(l, r);
    SameRatio(l.N(), l.D(), Value(n1), Value(d1), r.N(), r.D(), Value(n2), Value(d2));
  }

  /** Equality of ratios may be read off either pair of representatives. */
  lemma SameRatio(p: int, q: int, n: int, d: int, p': int, q': int, n': int, d': int)
    requires q != 0 && d != 0 && q' != 0 && d' != 0
    requires p * d == n * q && p' * d' == n' * q'
    ensures p * q' == p' * q <==> n * d' == n' * d
  {
    RatioIsReal(p, q, n, d);
    RatioIsReal(p', q', n', d');
    RatioIsReal(p, q, p', q');
    RatioIsReal(n, d, n', d');
  }

  function Ratio(n: int, d: int): real
    requires d != 0
  {
    n as real / d as real
  }

  lemma RatioIsReal(p: int, q: int, n: int, d: int)
    requires q != 0 && d != 0
    ensures p * d == n * q <==> Ratio(p, q) == Ratio(n, d)
    ensures q > 0 && d > 0 ==> (p * d > n * q <==> Ratio(p, q) > Ratio(n, d))
  {
    var x, y := Ratio(p, q), Ratio(n, d);
    var s, t := q as real, d as real;
    assert (p * d) as real == (x * s) * t == x * (s * t);
    assert (n * q) as real == (y * t) * s == y * (s * t);
    RealOrder(x, y, s * t);
  }

  lemma RealOrder(x: real, y: real, m: real)
    requires m != 0.0
    ensures x * m == y * m <==> x == y
    ensures m > 0.0 ==> (x * m > y * m <==> x > y)
  {
    assert (x - y) * m == x * m - y * m;
  }

  // ---------- Arithmetic and order

  /** The number a rational stands for. */
  function RealValue(q: Fraction): real
    requires q.D() != 0
  {
    Ratio(q.N(), q.D())
  }

  lemma IntegerIsLowest(n: IPInt)
    ensures LowestTerms(FromInteger(n)) && FromInteger(n).N() == Value(n) && FromInteger(n).D() == 1
  {
    var v := Value(n);
    TruncDivRem(v, 1);
    assert Gcd(v, 1) == Gcd(1, 0) == 1;
  }

  lemma ReducedReal(n: IPInt, d: IPInt)
    requires Value(d) != 0
    ensures LowestTerms(Reduced(n, d)) && RealValue(Reduced(n, d)) == Ratio(Value(n), Value(d))
  {
    hide Reduced, Value, Canonical, Ratio;
    ReducedIsLowest(n, d);
    RatioIsReal(Reduced(n, d).N(), Reduced(n, d).D(), Value(n), Value(d));
  }

  lemma RatioSum(a: int, b: int, c: int, d: int)
    requires b != 0 && d != 0 && b * d != 0
    ensures Ratio(a * d + c * b, b * d) == Ratio(a, b) + Ratio(c, d)
    ensures Ratio(a * d - c * b, b * d) == Ratio(a, b) - Ratio(c, d)
  {
    hide Ratio;
    var x, y, s, t := Ratio(a, b), Ratio(c, d), b as real, d as real;
    Scaled(a, b, d, x);
    Scaled(c, d, b, y);
    RealCommutes(s, t);
    CastProduct(b, d);
    RealDistributes(x, y, s * t);
    RatioIs(a * d + c * b, b * d, x + y);
    RatioIs(a * d - c * b, b * d, x - y);
  }

  lemma CastProduct(a: int, b: int)
    ensures (a * b) as real == (a as real) * (b as real)
  {
  }

  lemma Scaled(a: int, b: int, d: int, x: real)
    requires b != 0 && x == Ratio(a, b)
    ensures (a * d) as real == x * ((b as real) * (d as real))
  {
    RatioTimes(a, b);
    CastProduct(a, d);
    hide Ratio;
    RealAssociates(x, b as real, d as real);
  }

  lemma RatioIs(n: int, d: int, x: real)
    requires d != 0 && n as real == x * (d as real)
    ensures Ratio(n, d) == x
  {
    RealQuotient(x, d as real);
  }

  lemma RatioTimes(a: int, b: int)
    requires b != 0
    ensures Ratio(a, b) * (b as real) == a as real
  {
  }

  lemma RealCommutes(x: real, y: real)
    ensures x * y == y * x
  {
  }

  lemma RealDistributes(x: real, y: real, m: real)
    ensures (x + y) * m == x * m + y * m && (x - y) * m == x * m - y * m
  {
  }

  lemma RealQuotient(x: real, m: real)
    requires m != 0.0
    ensures (x * m) / m == x
  {
  }

  lemma RatioProduct(a: int, b: int, c: int, d: int)
    requires b != 0 && d != 0 && b * d != 0
    ensures Ratio(a * c, b * d) == Ratio(a, b) * Ratio(c, d)
  {
    var x, y, s, t := Ratio(a, b), Ratio(c, d), b as real, d as real;
    assert (a * c) as real == (x * s) * (y * t) by {
      assert a as real == x * s && c as real == y * t;
    }
    assert (b * d) as real == s * t;
    RealSwap(x, s, y, t);
    RealQuotient(x * y, s * t);
  }

  lemma RealSwap(x: real, s: real, y: real, t: real)
    ensures (x * s) * (y * t) == (x * y) * (s * t)
  {
  }

  lemma RatioQuotient(a: int, b: int, c: int, d: int)
    requires b != 0 && d != 0 && c != 0 && b * c != 0
    ensures Ratio(c, d) != 0.0
    ensures Ratio(a * d, b * c) == Ratio(a, b) / Ratio(c, d)
  {
    RatioProduct(a, b, d, c);
    var y, s, t := Ratio(c, d), c as real, d as real;
    assert y * t == s;
    ReciprocalReal(Ratio(a, b), y, s, t);
  }

  lemma ReciprocalReal(x: real, y: real, s: real, t: real)
    requires y * t == s && s != 0.0 && t != 0.0
    ensures y != 0.0
    ensures x * (t / s) == x / y
  {
    var z := t / s;
    assert z * s == t;
    RealAssociates(z, y, t);
    RealOrder(z * y, 1.0, t);
    RealAssociates(x, z, y);
    assert (x / y) * y == x;
    RealOrder(x * z, x / y, y);
  }

  lemma RealAssociates(a: real, b: real, c: real)
    ensures (a * b) * c == a * (b * c)
  {
  }

  /** Sums, differences, products and quotients are exact, and again in lowest terms. */
  lemma ArithmeticExact(l: Fraction, r: Fraction, op: RationalOp)
    requires LowestTerms(l) && LowestTerms(r)
    requires op == RDiv ==> r.N() != 0
    ensures LowestTerms(Arithmetic(l, r, op))
    ensures op == RDiv ==> RealValue(r) != 0.0
    ensures op == RAdd ==> RealValue(Arithmetic(l, r, op)) == RealValue(l) + RealValue(r)
    ensures op == RSub ==> RealValue(Arithmetic(l, r, op)) == RealValue(l) - RealValue(r)
    ensures op == RMul ==> RealValue(Arithmetic(l, r, op)) == RealValue(l) * RealValue(r)
    ensures op == RDiv ==> RealValue(Arithmetic(l, r, op)) == RealValue(l) / RealValue(r)
  {
    hide Binop, Reduced, Value, Canonical, Ratio, Coprime;
    var lN, lD, rN, rD := l.numerator, l.denominator, r.numerator, r.denominator;
    MulExact(lD, rD);
    MulExact(lN, rD);
    MulExact(rN, lD);
    MulExact(lN, rN);
    MulExact(lD, rN);
    ProductNonZero(l.D(), r.D());
    ProductNonZero(l.D(), r.N());
    match op
    case RAdd =>
      AddExact(Binop(lN, rD, Mul), Binop(rN, lD, Mul));
      ReducedReal(Binop(Binop(lN, rD, Mul), Binop(rN, lD, Mul), Add), Binop(lD, rD, Mul));
      RatioSum(l.N(), l.D(), r.N(), r.D());
    case RSub =>
      SubExact(Binop(lN, rD, Mul), Binop(rN, lD, Mul));
      ReducedReal(Binop(Binop(lN, rD, Mul), Binop(rN, lD, Mul), Sub), Binop(lD, rD, Mul));
      RatioSum(l.N(), l.D(), r.N(), r.D());
    case RMul =>
      ReducedReal(Binop(lN, rN, Mul), Binop(lD, rD, Mul));
      RatioProduct(l.N(), l.D(), r.N(), r.D());
    case RDiv =>
      ReducedReal(Binop(lN, rD, Mul), Binop(lD, rN, Mul));
      RatioQuotient(l.N(), l.D(), r.N(), r.D());
  }

  /** Structural equality and the four comparisons are the equality and order of the real values. */
  lemma CompareIsRealOrder(l: Fraction, r: Fraction)
    requires LowestTerms(l) && LowestTerms(r)
    ensures Equal(l, r) <==> RealValue(l) == RealValue(r)
    ensures Compare(l, r, Sgt) <==> RealValue(l) > RealValue(r)
    ensures Compare(l, r, Sge) <==> RealValue(l) >= RealValue(r)
    ensures Compare(l, r, Slt) <==> RealValue(l) < RealValue(r)
    ensures Compare(l, r, Sle) <==> RealValue(l) <= RealValue(r)
  {
    hide Binop, Cmp, Value, Canonical, Ratio, Coprime, Equal;
    MulExact(l.numerator, r.denominator);
    MulExact(l.denominator, r.numerator);
    CmpIsOrder(Binop(l.numerator, r.denominator, Mul), Binop(l.denominator, r.numerator, Mul));
    LowestTermsUnique(l, r);
    RatioIsReal(l.N(), l.D(), r.N(), r.D());
    assert Compare(l, r, Sgt) <==> RealValue(l) > RealValue(r);
  }

  /** The absolute value of a rational, again in lowest terms. */
  lemma AbsRationalExact(q: Fraction)
    requires LowestTerms(q)
    ensures LowestTerms(AbsRational(q))
    ensures RealValue(AbsRational(q)) == if RealValue(q) < 0.0 then -RealValue(q) else RealValue(q)
  {
    hide Arithmetic, Cmp, Value, Canonical, Coprime;
    CmpIsOrder(q.numerator, FromInt(0));
    RatioIsReal(0, 1, q.N(), q.D());
    if q.N() < 0 {
      IntegerIsLowest(FromInt(-1));
      ArithmeticExact(FromInteger(FromInt(-1)), q, RMul);
    }
  }
}
