/** Powers, truncated division and bits of unbounded integers. */
module Powers {

  function Pow2(n: nat): (p: int)
    ensures p >= 1
  {
    if n == 0 then 1 else 2 * Pow2(n - 1)
  }

  function Power(b: int, e: nat): int {
    if e == 0 then 1 else b * Power(b, e - 1)
  }

  function Abs(x: int): (r: int)
    ensures r >= 0
  {
    if x < 0 then -x else x
  }

  function Min(a: nat, b: nat): nat {
    if a < b then a else b
  }

  /** C++ integer division: the exact quotient rounded toward zero. */
  function TruncDiv(a: int, b: int): int
    requires b != 0
  {
    if (a < 0) == (b < 0) then Abs(a) / Abs(b) else -(Abs(a) / Abs(b))
  }

  /** C++ integer remainder: what TruncDiv leaves over, with the sign of a. */
  function TruncRem(a: int, b: int): int
    requires b != 0
  {
    if a < 0 then -(Abs(a) % Abs(b)) else Abs(a) % Abs(b)
  }

  /** Bit i of the infinite two's complement form of x. */
  predicate Bit(x: int, i: nat)
    decreases i
  {
    if i == 0 then x % 2 == 1 else Bit(x / 2, i - 1)
  }

  lemma {:induction false} Pow2Add(a: nat, b: nat)
    ensures Pow2(a + b) == Pow2(a) * Pow2(b)
  {
    if a == 0 {
    } else {
      Pow2Add(a - 1, b);
      assert Pow2(a + b) == 2 * (Pow2(a - 1) * Pow2(b));
    }
  }

  lemma {:induction false} Pow2Monotone(a: nat, b: nat)
    requires a <= b
    ensures Pow2(a) <= Pow2(b)
    decreases b - a
  {
    if a < b { Pow2Monotone(a + 1, b); }
  }

  lemma {:induction false} Pow2ExceedsLinear(n: nat)
    ensures Pow2(n) >= n + 1
    ensures n >= 1 ==> Pow2(n) >= 2 * n
  {
    if n == 0 {
    } else {
      Pow2ExceedsLinear(n - 1);
    }
  }

  lemma MulCancel(a: int, b: int, m: int)
    requires m != 0 && a * m == b * m
    ensures a == b
  {
    assert (a - b) * m == 0;
  }

  lemma DivModUnique(a: int, m: int, q: int, r: int)
    requires m > 0 && a == q * m + r && 0 <= r < m
    ensures a / m == q && a % m == r
  {
    var q', r' := a / m, a % m;
    assert a == q' * m + r';
    if q' > q {
      assert (q' - q) * m >= m by { MulAtLeast(q' - q, m); }
      assert false;
    } else if q' < q {
      assert (q - q') * m >= m by { MulAtLeast(q - q', m); }
      assert false;
    }
  }

  lemma MulAtLeast(k: int, m: int)
    requires k >= 1 && m >= 0
    ensures k * m >= m
  {
    assert (k - 1) * m >= 0;
  }

  lemma MulMonotone(a: nat, b: nat, c: nat, d: nat)
    requires a <= c && b <= d
    ensures a * b <= c * d
  {
    assert a * b <= c * b by { assert (c - a) * b >= 0; }
    assert c * b <= c * d by { assert c * (d - b) >= 0; }
  }

  lemma NatDivMod(a: int, b: int)
    requires a >= 0 && b >= 1
    ensures a == b * (a / b) + a % b && 0 <= a % b < b
    ensures 0 <= a / b <= a && a % b <= a
  {
    var q, r := a / b, a % b;
    assert a == b * q + r;
    MulMonotone(1, q, b, q);
  }

  lemma SignedProducts(b: int, q: int)
    ensures Abs(b) * q == if b < 0 then -(b * q) else b * q
    ensures b * (-q) == -(b * q)
  {
  }

  /** Truncated division is characterised by its remainder, as for C++ operators / and %. */
  lemma TruncDivRem(a: int, b: int)
    requires b != 0
    ensures a == b * TruncDiv(a, b) + TruncRem(a, b)
    ensures Abs(TruncRem(a, b)) < Abs(b)
    ensures TruncRem(a, b) != 0 ==> (TruncRem(a, b) < 0) == (a < 0)
    ensures Abs(TruncDiv(a, b)) <= Abs(a)
    ensures Abs(TruncRem(a, b)) <= Abs(a)
  {
    NatDivMod(Abs(a), Abs(b));
    SignedProducts(b, Abs(a) / Abs(b));
  }

  /** An exact quotient is what truncated division returns. */
  lemma TruncDivExact(q: int, b: int)
    requires b != 0
    ensures TruncDiv(q * b, b) == q
  {
    hide TruncDiv, TruncRem;
    var a := q * b;
    TruncDivRem(a, b);
    SmallRemainder(a, b, q, TruncDiv(a, b), TruncRem(a, b));
  }

  /** Two quotients whose remainders are zero and below the divisor agree. */
  lemma SmallRemainder(a: int, b: int, q: int, d: int, r: int)
    requires a == q * b && a == b * d + r && Abs(r) < Abs(b)
    ensures q == d
  {
    assert (q - d) * b == r;
    if q != d {
      AbsMulAtLeast(q - d, b);
    }
  }

  lemma AbsMulAtLeast(k: int, b: int)
    requires k != 0
    ensures Abs(k * b) >= Abs(b)
  {
    AbsMul(k, b);
    MulAtLeast(Abs(k), Abs(b));
  }

  lemma AbsMul(a: int, b: int)
    ensures Abs(a * b) == Abs(a) * Abs(b)
  {
    if a < 0 && b < 0 {
      assert (-a) * (-b) == a * b;
    } else if a < 0 {
      assert (-a) * b == -(a * b);
      assert a * b <= 0;
    } else if b < 0 {
      assert a * (-b) == -(a * b);
      assert a * b <= 0;
    } else {
      assert a * b >= 0;
    }
  }

  /** Squaring the base halves the exponent. */
  lemma {:induction false} PowerSquare(b: int, n: nat)
    ensures Power(b * b, n) == Power(b, 2 * n)
  {
    if n == 0 {
    } else {
      PowerSquare(b, n - 1);
      assert Power(b, 2 * n) == b * (b * Power(b, 2 * (n - 1)));
    }
  }

  /** The bits of an integer determine it. */
  lemma {:induction false} BitsDetermine(x: int, y: int)
    requires forall i: nat :: Bit(x, i) == Bit(y, i)
    ensures x == y
    decreases Abs(x) + Abs(y)
  {
    assert Bit(x, 0) == Bit(y, 0);
    assert x == 2 * (x / 2) + x % 2 && y == 2 * (y / 2) + y % 2;
    forall i: nat ensures Bit(x / 2, i) == Bit(y / 2, i) {
      assert Bit(x, i + 1) == Bit(y, i + 1);
    }
    if Abs(x / 2) + Abs(y / 2) < Abs(x) + Abs(y) {
      BitsDetermine(x / 2, y / 2);
    } else {
      assert x in {0, -1} && y in {0, -1};
    }
  }
}
