/** Divisibility, Euclid's algorithm with truncating remainders, and Euclid's lemma, over all signs. */
module Euclid {
  import opened Powers

  predicate IsMultiple(a: int, k: int, d: int) {
    a == k * d
  }

  ghost predicate Divides(d: int, a: int) {
    exists k :: IsMultiple(a, k, d)
  }

  /** g divides a and b, and every common divisor divides g. Fixes g up to sign. */
  ghost predicate IsGcd(g: int, a: int, b: int) {
    Divides(g, a) && Divides(g, b) && forall d :: Divides(d, a) && Divides(d, b) ==> Divides(d, g)
  }

  /** What Euclid's algorithm computes with C++ remainders; the sign is whatever falls out. */
  function Gcd(a: int, b: int): int
    decreases Abs(b)
  {
    if b == 0 then a else
    TruncDivRem(a, b);
    Gcd(b, TruncRem(a, b))
  }

  ghost predicate Coprime(a: int, b: int) {
    Abs(Gcd(a, b)) == 1
  }

  lemma Witness(d: int, a: int, k: int)
    requires a == k * d
    ensures Divides(d, a)
  {
    assert IsMultiple(a, k, d);
  }

  ghost function Quotient(d: int, a: int): (k: int)
    requires Divides(d, a)
    ensures a == k * d
  {
    var k :| IsMultiple(a, k, d);
    k
  }

  lemma DividesCombination(d: int, a: int, b: int, x: int, y: int)
    requires Divides(d, a) && Divides(d, b)
    ensures Divides(d, x * a + y * b)
  {
    var k, m := Quotient(d, a), Quotient(d, b);
    assert x * (k * d) == (x * k) * d && y * (m * d) == (y * m) * d;
    assert (x * k + y * m) * d == (x * k) * d + (y * m) * d;
    Witness(d, x * a + y * b, x * k + y * m);
  }

  lemma DividesMagnitude(d: int, a: int)
    requires Divides(d, a) && a != 0
    ensures Abs(d) <= Abs(a)
  {
    var k := Quotient(d, a);
    AbsMulAtLeast(k, d);
  }

  lemma MutualDivides(g: int, h: int)
    requires Divides(g, h) && Divides(h, g)
    ensures Abs(g) == Abs(h)
  {
    var k, m := Quotient(g, h), Quotient(h, g);
    if g != 0 && h != 0 {
      DividesMagnitude(g, h);
      DividesMagnitude(h, g);
    }
  }

  lemma DividesZero(d: int)
    ensures Divides(d, 0)
  {
    Witness(d, 0, 0);
  }

  lemma DividesSelf(d: int)
    ensures Divides(d, d)
  {
    Witness(d, d, 1);
  }

  /** The algorithm's result is an integer combination of its arguments. */
  lemma {:induction false} Bezout(a: int, b: int) returns (x: int, y: int)
    ensures Gcd(a, b) == x * a + y * b
    decreases Abs(b)
  {
    if b == 0 {
      x, y := 1, 0;
    } else {
      TruncDivRem(a, b);
      var q, r := TruncDiv(a, b), TruncRem(a, b);
      var u, v := Bezout(b, r);
      x, y := v, u - v * q;
      CombineStep(a, b, q, r, u, v);
    }
  }

  lemma CombineStep(a: int, b: int, q: int, r: int, u: int, v: int)
    requires a == b * q + r
    ensures u * b + v * r == v * a + (u - v * q) * b
  {
    assert v * a == v * (b * q) + v * r;
    assert (u - v * q) * b == u * b - (v * q) * b;
    assert v * (b * q) == (v * q) * b;
  }

  lemma {:induction false} GcdDividesBoth(a: int, b: int)
    ensures Divides(Gcd(a, b), a) && Divides(Gcd(a, b), b)
    decreases Abs(b)
  {
    if b == 0 {
      DividesSelf(a);
      DividesZero(a);
    } else {
      TruncDivRem(a, b);
      var q, r := TruncDiv(a, b), TruncRem(a, b);
      GcdDividesBoth(b, r);
      DividesCombination(Gcd(b, r), b, r, q, 1);
    }
  }

  /** The loop computes a greatest common divisor, for operands of any sign, zero included. */
  lemma GcdIsGcd(a: int, b: int)
    ensures IsGcd(Gcd(a, b), a, b)
    ensures Gcd(a, b) == 0 <==> a == 0 && b == 0
  {
    GcdDividesBoth(a, b);
    var x, y := Bezout(a, b);
    forall d | Divides(d, a) && Divides(d, b) ensures Divides(d, Gcd(a, b)) {
      DividesCombination(d, a, b, x, y);
    }
    if Gcd(a, b) == 0 {
      var k, m := Quotient(0, a), Quotient(0, b);
    }
  }

  /** r is the C++ remainder of a by b: it differs from a by a multiple of b, is smaller than b in magnitude, and does
      not have the opposite sign of a. */
  ghost predicate IsRemainder(r: int, a: int, b: int) {
    Divides(b, a - r) && Abs(r) < Abs(b) && (a >= 0 ==> r >= 0) && (a <= 0 ==> r <= 0)
  }

  /** Each number from the third on is the remainder of the two before it; the last is zero, and the only one to be
      zero after the first. */
  ghost predicate IsRemainderChain(rs: seq<int>) {
    && |rs| >= 2 && rs[|rs| - 1] == 0
    && (forall i :: 0 < i < |rs| - 1 ==> rs[i] != 0)
    && (forall i :: 2 <= i < |rs| ==> IsRemainder(rs[i], rs[i - 2], rs[i - 1]))
  }

  /** The loop's result, sign and all, is the number before the zero that ends the chain of remainders. */
  lemma {:induction false} GcdEndsChain(a: int, b: int) returns (rs: seq<int>)
    ensures IsRemainderChain(rs) && rs[0] == a && rs[1] == b && rs[|rs| - 2] == Gcd(a, b)
    decreases Abs(b)
  {
    if b == 0 {
      rs := [a, b];
    } else {
      TruncDivRem(a, b);
      var q, r := TruncDiv(a, b), TruncRem(a, b);
      var rest := GcdEndsChain(b, r);
      Witness(b, a - r, q);
      rs := [a] + rest;
      ChainGrows(a, rest);
    }
  }

  lemma ChainGrows(a: int, rest: seq<int>)
    requires IsRemainderChain(rest) && rest[0] != 0 && IsRemainder(rest[1], a, rest[0])
    ensures IsRemainderChain([a] + rest)
  {
    hide IsRemainder;
    var rs := [a] + rest;
    forall i | 2 <= i < |rs| ensures IsRemainder(rs[i], rs[i - 2], rs[i - 1]) {
      if i > 2 { assert IsRemainder(rest[i - 1], rest[i - 3], rest[i - 2]); }
    }
  }

  /** Any greatest common divisor agrees with the loop's result up to sign, and bounds all common divisors. */
  lemma GcdUnique(g: int, a: int, b: int)
    requires IsGcd(g, a, b)
    ensures Abs(g) == Abs(Gcd(a, b))
    ensures a != 0 || b != 0 ==> forall d :: Divides(d, a) && Divides(d, b) ==> Abs(d) <= Abs(g)
  {
    GcdIsGcd(a, b);
    var h := Gcd(a, b);
    MutualDivides(g, h);
    if a != 0 || b != 0 {
      forall d | Divides(d, a) && Divides(d, b) ensures Abs(d) <= Abs(g) {
        DividesMagnitude(d, g);
      }
    }
  }

  /** Euclid's lemma. */
  lemma EuclidLemma(a: int, b: int, c: int)
    requires Coprime(a, b) && Divides(a, b * c)
    ensures Divides(a, c)
  {
    var x, y := Bezout(a, b);
    var g := Gcd(a, b);
    DividesSelf(a);
    DividesCombination(a, a, b * c, x * c, y);
    assert (x * c) * a + y * (b * c) == g * c by { EuclidArithmetic(a, b, c, x, y, g); }
    if g == 1 {
    } else {
      DividesCombination(a, g * c, a, -1, 0);
    }
  }

  lemma EuclidArithmetic(a: int, b: int, c: int, x: int, y: int, g: int)
    requires g == x * a + y * b
    ensures (x * c) * a + y * (b * c) == g * c
  {
    assert g * c == (x * a) * c + (y * b) * c;
    assert (x * c) * a == (x * a) * c && y * (b * c) == (y * b) * c;
  }

  lemma GcdSymmetricUnits(a: int, b: int)
    requires Coprime(a, b)
    ensures Coprime(b, a)
  {
    GcdIsGcd(a, b);
    assert IsGcd(Gcd(a, b), b, a);
    GcdUnique(Gcd(a, b), b, a);
  }

  /** Dividing out the greatest common divisor leaves coprime numbers. */
  lemma ReducedCoprime(a: int, b: int, p: int, q: int)
    requires b != 0 && a == p * Gcd(a, b) && b == q * Gcd(a, b)
    ensures Coprime(p, q)
  {
    var g := Gcd(a, b);
    GcdIsGcd(a, b);
    GcdIsGcd(p, q);
    var h := Gcd(p, q);
    DividesScaled(h, p, g);
    DividesScaled(h, q, g);
    DividesMagnitude(h * g, g);
    UnitFactor(h, g);
  }

  lemma DividesScaled(h: int, p: int, g: int)
    requires Divides(h, p)
    ensures Divides(h * g, p * g)
  {
    var k := Quotient(h, p);
    assert (k * h) * g == k * (h * g);
    Witness(h * g, p * g, k);
  }

  lemma UnitFactor(h: int, g: int)
    requires g != 0 && h != 0 && Abs(h * g) <= Abs(g)
    ensures Abs(h) == 1
  {
    AbsMul(h, g);
    if Abs(h) >= 2 {
      MulMonotone(2, Abs(g), Abs(h), Abs(g));
    }
  }
}
