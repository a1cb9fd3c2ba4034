/** Fixed-width two's complement integers, as offered by LLVM's APInt. */
module ApInt {
  import opened Powers

  /** A bit pattern of the given width. */
  datatype APInt = APInt(width: nat, bits: nat) {

    predicate Valid() {
      width >= 1 && bits < Pow2(width)
    }

    /** The pattern read as a signed number. */
    function Signed(): int
      requires Valid()
    {
      if bits < Pow2(width - 1) then bits else bits - Pow2(width)
    }
  }

  predicate Fits(w: nat, v: int)
    requires w >= 1
  {
    -Pow2(w - 1) <= v < Pow2(w - 1)
  }

  /** The low w bits of v. */
  function Wrap(w: nat, v: int): (a: APInt)
    requires w >= 1
    ensures a.Valid() && a.width == w
  {
    APInt(w, v % Pow2(w))
  }

  function SExtOrTrunc(a: APInt, w: nat): (r: APInt)
    requires a.Valid() && w >= 1
    ensures r.Valid() && r.width == w
  {
    Wrap(w, a.Signed())
  }

  function AbsWrapped(a: APInt): (r: APInt)
    requires a.Valid()
    ensures r.Valid() && r.width == a.width
  {
    if a.Signed() < 0 then Wrap(a.width, -a.Signed()) else a
  }

  function Clamp(w: nat, v: int): (c: int)
    requires w >= 1
  {
    if v < -Pow2(w - 1) then -Pow2(w - 1)
    else if v >= Pow2(w - 1) then Pow2(w - 1) - 1
    else v
  }

  predicate SameWidth(a: APInt, b: APInt) {
    a.Valid() && b.Valid() && a.width == b.width
  }

  function SAddSat(a: APInt, b: APInt): (r: APInt)
    requires SameWidth(a, b)
    ensures r.Valid() && r.width == a.width
  {
    Wrap(a.width, Clamp(a.width, a.Signed() + b.Signed()))
  }

  function SSubSat(a: APInt, b: APInt): (r: APInt)
    requires SameWidth(a, b)
    ensures r.Valid() && r.width == a.width
  {
    Wrap(a.width, Clamp(a.width, a.Signed() - b.Signed()))
  }

  function SMulSat(a: APInt, b: APInt): (r: APInt)
    requires SameWidth(a, b)
    ensures r.Valid() && r.width == a.width
  {
    Wrap(a.width, Clamp(a.width, a.Signed() * b.Signed()))
  }

  function SDiv(a: APInt, b: APInt): (r: APInt)
    requires SameWidth(a, b) && b.Signed() != 0
    ensures r.Valid() && r.width == a.width
  {
    Wrap(a.width, TruncDiv(a.Signed(), b.Signed()))
  }

  function SRem(a: APInt, b: APInt): (r: APInt)
    requires SameWidth(a, b) && b.Signed() != 0
    ensures r.Valid() && r.width == a.width
  {
    Wrap(a.width, TruncRem(a.Signed(), b.Signed()))
  }

  /** Left shift; the amount is the unsigned reading of b, and an amount of at least the width clears every bit. */
  function Shl(a: APInt, b: APInt): (r: APInt)
    requires SameWidth(a, b)
    ensures r.Valid() && r.width == a.width
  {
    if b.bits >= a.width then APInt(a.width, 0) else Wrap(a.width, a.bits * Pow2(b.bits))
  }

  /** Arithmetic right shift; an amount of at least the width leaves only copies of the sign bit. */
  function AShr(a: APInt, b: APInt): (r: APInt)
    requires SameWidth(a, b)
    ensures r.Valid() && r.width == a.width
  {
    if b.bits >= a.width then Wrap(a.width, if a.Signed() < 0 then -1 else 0)
    else Wrap(a.width, a.Signed() / Pow2(b.bits))
  }

  datatype Logic = And | Or | Xor {
    predicate Apply(p: bool, q: bool) {
      match this
      case And => p && q
      case Or => p || q
      case Xor => p != q
    }
  }

  /** Bit by bit combination of the low w bits of two patterns. */
  function LogicBits(w: nat, op: Logic, a: nat, b: nat): (r: nat)
    ensures r < Pow2(w)
  {
    if w == 0 then 0
    else 2 * LogicBits(w - 1, op, a / 2, b / 2) + (if op.Apply(a % 2 == 1, b % 2 == 1) then 1 else 0)
  }

  function Bitwise(op: Logic, a: APInt, b: APInt): (r: APInt)
    requires SameWidth(a, b)
    ensures r.Valid() && r.width == a.width
  {
    APInt(a.width, LogicBits(a.width, op, a.bits, b.bits))
  }

  /** A number in range survives being cut to w bits. */
  lemma WrapFits(w: nat, v: int)
    requires w >= 1 && Fits(w, v)
    ensures Wrap(w, v).Signed() == v
  {
    var m := Pow2(w);
    assert m == 2 * Pow2(w - 1);
    if v >= 0 {
      DivModUnique(v, m, 0, v);
    } else {
      DivModUnique(v, m, -1, v + m);
    }
  }

  lemma SignedFits(a: APInt)
    requires a.Valid()
    ensures Fits(a.width, a.Signed())
    ensures Wrap(a.width, a.Signed()) == a
  {
    var m := Pow2(a.width);
    assert m == 2 * Pow2(a.width - 1);
    DivModUnique(a.Signed(), m, if a.Signed() < 0 then -1 else 0, a.bits);
  }

  /** Saturation does not show while the exact result is in range. */
  lemma SaturationIdle(w: nat, v: int)
    requires w >= 1 && Fits(w, v)
    ensures Wrap(w, Clamp(w, v)).Signed() == v
  {
    assert Clamp(w, v) == v;
    WrapFits(w, v);
  }

  /** Saturation gives the number of that width nearest to the exact result. */
  lemma SaturationIsNearest(w: nat, v: int, u: int)
    requires w >= 1 && Fits(w, u)
    ensures Fits(w, Wrap(w, Clamp(w, v)).Signed())
    ensures Abs(Wrap(w, Clamp(w, v)).Signed() - v) <= Abs(u - v)
  {
    var c := Clamp(w, v);
    assert Fits(w, c);
    WrapFits(w, c);
  }

  lemma SAddSatExact(a: APInt, b: APInt)
    requires SameWidth(a, b) && Fits(a.width, a.Signed() + b.Signed())
    ensures SAddSat(a, b).Signed() == a.Signed() + b.Signed()
  {
    SaturationIdle(a.width, a.Signed() + b.Signed());
  }

  lemma SSubSatExact(a: APInt, b: APInt)
    requires SameWidth(a, b) && Fits(a.width, a.Signed() - b.Signed())
    ensures SSubSat(a, b).Signed() == a.Signed() - b.Signed()
  {
    SaturationIdle(a.width, a.Signed() - b.Signed());
  }

  lemma SMulSatExact(a: APInt, b: APInt)
    requires SameWidth(a, b) && Fits(a.width, a.Signed() * b.Signed())
    ensures SMulSat(a, b).Signed() == a.Signed() * b.Signed()
  {
    SaturationIdle(a.width, a.Signed() * b.Signed());
  }

  lemma WrapShift(w: nat, v: int, k: int)
    requires w >= 1
    ensures Wrap(w, v + k * Pow2(w)) == Wrap(w, v)
  {
    var m := Pow2(w);
    var q, r := v / m, v % m;
    assert v + k * m == (q + k) * m + r by { assert (q + k) * m == q * m + k * m; }
    DivModUnique(v + k * m, m, q + k, r);
  }

  lemma DistributeShift(v: int, k: int, p: int, m: int)
    ensures (v + k * p) * m == v * m + (k * m) * p
  {
    assert (k * p) * m == (k * m) * p;
  }

  /** A left shift whose exact result is in range multiplies by a power of two. */
  lemma ShlInRange(a: APInt, b: APInt)
    requires SameWidth(a, b) && b.bits < a.width && Fits(a.width, a.Signed() * Pow2(b.bits))
    ensures Shl(a, b).Signed() == a.Signed() * Pow2(b.bits)
  {
    var v, p, m := a.Signed(), Pow2(a.width), Pow2(b.bits);
    var k := if v < 0 then 1 else 0;
    DistributeShift(v, k, p, m);
    WrapShift(a.width, v * m, k * m);
    WrapFits(a.width, v * m);
  }

  /** The signed reading splits off its lowest bit as the pattern does. */
  lemma SignedHalf(w: nat, n: nat)
    requires w >= 2 && n < Pow2(w)
    ensures n / 2 < Pow2(w - 1)
    ensures APInt(w, n).Signed() / 2 == APInt(w - 1, n / 2).Signed()
    ensures APInt(w, n).Signed() % 2 == n % 2
  {
    assert Pow2(w) == 2 * Pow2(w - 1) && Pow2(w - 1) == 2 * Pow2(w - 2);
  }

  /** Bits of the signed reading: the pattern's own bits, then copies of its top bit. */
  lemma {:induction false} SignedBits(w: nat, n: nat, i: nat)
    requires w >= 1 && n < Pow2(w)
    ensures Bit(APInt(w, n).Signed(), i) == Bit(n, if i < w then i else w - 1)
    decreases i
  {
    if w == 1 {
      assert n in {0, 1} && APInt(w, n).Signed() == 0 - n;
      AllSignBits(APInt(w, n).Signed(), i);
    } else if i > 0 {
      SignedHalf(w, n);
      SignedBits(w - 1, n / 2, i - 1);
    } else {
      SignedHalf(w, n);
    }
  }

  lemma {:induction false} AllSignBits(v: int, i: nat)
    requires v in {0, -1}
    ensures Bit(v, i) == (v == -1)
    decreases i
  {
    if i == 0 {
    } else {
      AllSignBits(v / 2, i - 1);
    }
  }

  lemma {:induction false} LogicBitAt(w: nat, op: Logic, a: nat, b: nat, i: nat)
    requires i < w
    ensures Bit(LogicBits(w, op, a, b), i) == op.Apply(Bit(a, i), Bit(b, i))
    decreases i
  {
    if i == 0 {
    } else {
      LogicBitAt(w - 1, op, a / 2, b / 2, i - 1);
      assert LogicBits(w, op, a, b) / 2 == LogicBits(w - 1, op, a / 2, b / 2);
    }
  }

  /** At a common width, bitwise logic is bitwise logic on infinite two's complement. */
  lemma BitwiseIsInfinite(op: Logic, a: APInt, b: APInt, i: nat)
    requires SameWidth(a, b)
    ensures Bit(Bitwise(op, a, b).Signed(), i) == op.Apply(Bit(a.Signed(), i), Bit(b.Signed(), i))
  {
    var w := a.width;
    var j := if i < w then i else w - 1;
    SignedBits(w, a.bits, i);
    SignedBits(w, b.bits, i);
    SignedBits(w, LogicBits(w, op, a.bits, b.bits), i);
    LogicBitAt(w, op, a.bits, b.bits, j);
  }

  // ---------- Integer laws of bitwise logic

  /** On patterns: and plus or is the sum, and xor is or without and. */
  lemma {:induction false} LogicBitsLaws(w: nat, a: nat, b: nat)
    requires a < Pow2(w) && b < Pow2(w)
    ensures LogicBits(w, And, a, b) + LogicBits(w, Or, a, b) == a + b
    ensures LogicBits(w, Xor, a, b) == LogicBits(w, Or, a, b) - LogicBits(w, And, a, b)
  {
    if w == 0 {
    } else {
      LogicBitsLaws(w - 1, a / 2, b / 2);
      assert a == 2 * (a / 2) + a % 2 && b == 2 * (b / 2) + b % 2;
    }
  }

  /** The top bit of a pattern is its sign. */
  lemma {:induction false} TopBit(w: nat, n: nat)
    requires w >= 1 && n < Pow2(w)
    ensures Bit(n, w - 1) <==> n >= Pow2(w - 1)
  {
    if w == 1 {
      assert n in {0, 1};
    } else {
      TopBit(w - 1, n / 2);
      assert Pow2(w - 1) == 2 * Pow2(w - 2);
    }
  }

  lemma LogicSign(w: nat, op: Logic, a: nat, b: nat)
    requires w >= 1 && a < Pow2(w) && b < Pow2(w)
    ensures LogicBits(w, op, a, b) >= Pow2(w - 1) <==> op.Apply(a >= Pow2(w - 1), b >= Pow2(w - 1))
  {
    hide LogicBits;
    LogicBitAt(w, op, a, b, w - 1);
    TopBit(w, a);
    TopBit(w, b);
    TopBit(w, LogicBits(w, op, a, b));
  }

  /** On signed numbers of one width the same laws hold. */
  lemma BitwiseLaws(a: APInt, b: APInt)
    requires SameWidth(a, b)
    ensures Bitwise(And, a, b).Signed() + Bitwise(Or, a, b).Signed() == a.Signed() + b.Signed()
    ensures Bitwise(Xor, a, b).Signed() == Bitwise(Or, a, b).Signed() - Bitwise(And, a, b).Signed()
  {
    hide LogicBits, Pow2;
    var w := a.width;
    LogicBitsLaws(w, a.bits, b.bits);
    LogicSign(w, And, a.bits, b.bits);
    LogicSign(w, Or, a.bits, b.bits);
    LogicSign(w, Xor, a.bits, b.bits);
  }
}
