/** The Q64.64 number class: signed multiplication, division, and division by a precomputed inverse. */
module HighPrecision {
  import opened Arithmetic
  import opened Wrappers
  import opened WideInt
  import opened FixedPoint

  // ---------------------------------------------------------------- signs

  lemma SignedProduct(x: int, y: int)
    ensures TruncDiv(x * y, B64)
            == if (x < 0) != (y < 0) then -(Abs(x) * Abs(y) / B64) else Abs(x) * Abs(y) / B64
  {
    if x < 0 && y < 0 {
      assert x * y == -x * -y >= 0;
    } else if x < 0 {
      assert x * y == -(-x * y) <= 0;
    } else if y < 0 {
      assert x * y == -(x * -y) <= 0;
    } else {
      assert x * y >= 0;
    }
  }

  lemma SignedQuotient(x: int, y: int)
    requires y != 0
    ensures TruncDiv(x * B64, y)
            == if (x < 0) != (y < 0) then -ScaledQuotient(Abs(x), Abs(y)) else ScaledQuotient(Abs(x), Abs(y))
  {
    assert Abs(x * B64) == Abs(x) * B64;
    if x == 0 { DivModUnique(0, Abs(y), 0, 0); }
  }

  lemma WithSignModulo(negative: bool, m: int, w: U128)
    requires w.Value() == m % B128
    ensures WithSign(negative, w).Value() == (if negative then -m else m) % B128
  {
    hide WithSign;
    if negative {
      ModAddMultiple(-m, m / B128, B128);
      assert -w.Value() == -m + m / B128 * B128;
    } else {
      SumFits(w.Value(), 0);
    }
  }

  /** High words whose product needs more than 64 bits make the whole product too large for the format. */
  lemma HighWordsOverflow(a: U128, b: U128)
    requires a.hi * b.hi >= B64
    ensures a.Value() * b.Value() / B64 >= B128
  {
    ProductParts(a, b);
    NonNegativeProducts(a.lo, b.hi, a.hi, b.lo);
    MulMonotone(0, a.lo, b.lo);
    assert a.Value() * b.Value() >= B64 * B128;
  }

  lemma NonNegativeProducts(x: nat, y: nat, z: nat, w: nat)
    ensures x * y + z * w >= 0
  {
    MulMonotone(0, x, y);
    MulMonotone(0, z, w);
  }

  // ---------------------------------------------------------------- multiplication by an inverse

  /** Multiply a Q64.64 magnitude by a Q0.128 inverse, keeping Q64.64. */
  function UmulByInvert(a: U128, b: U128): U128 {
    var hi := Mul64x64(a.hi, b.hi);
    var mid := Add(Mul64x64(a.hi, b.lo), Mul64x64(a.lo, b.hi));
    Add(hi, U128(mid.hi, 0))
  }

  lemma UmulByInvertValue(a: U128, b: U128)
    requires a.hi <= B63 && b.hi <= B63
    ensures UmulByInvert(a, b).Value() == a.hi * b.hi + (a.hi * b.lo + a.lo * b.hi) / B64
  {
    hide Add, Mul64x64, U128.Value;
    var m := a.hi * b.lo + a.lo * b.hi;
    MiddleParts(a.lo, a.hi, b.lo, b.hi);
    SumFits(a.hi * b.lo, a.lo * b.hi);
    var mid := Add(Mul64x64(a.hi, b.lo), Mul64x64(a.lo, b.hi));
    assert mid.Value() == m;
    HighWordOf(mid);
    HalfProductBound(a.hi, b.hi);
    SumFits(a.hi * b.hi, mid.hi);
  }

  lemma HighWordOf(a: U128)
    ensures a.hi == a.Value() / B64 && U128(a.hi, 0).Value() == a.hi
  {
  }

  /** Only the product of the two low words is ignored, so the result is the exact floor or one unit below it. */
  lemma UmulByInvertWithinOne(a: U128, b: U128)
    requires a.hi <= B63 && b.hi <= B63
    ensures UmulByInvert(a, b).Value()
            == a.hi * b.hi + (a.hi * b.lo + a.lo * b.hi) / B64
    ensures UmulByInvert(a, b).Value() <= a.Value() * b.Value() / B128 <= UmulByInvert(a, b).Value() + 1
    ensures a.lo == 0 ==> UmulByInvert(a, b).Value() == a.Value() * b.Value() / B128
  {
    hide UmulByInvert, U128.Value;
    UmulByInvertValue(a, b);
    MiddleParts(a.lo, a.hi, b.lo, b.hi);
    ProductParts(a, b);
    ProductBound(a.lo, b.lo, B64);
    InverseProductFloor(a.hi * b.hi, a.hi * b.lo + a.lo * b.hi, a.lo * b.lo, a.Value() * b.Value());
  }

  lemma HalfProductBound(x: u64, y: u64)
    requires x <= B63 && y <= B63
    ensures 0 <= x * y <= B63 * B63
  {
    ProductBound(x, y, B63 + 1);
    MulMonotone(x, B63, y);
    MulMonotone(y, B63, B63);
  }

  lemma InverseProductFloor(h: int, m: nat, l: int, p: int)
    requires p == h * B128 + m * B64 + l && 0 <= l <= (B64 - 1) * (B64 - 1)
    ensures h + m / B64 <= p / B128 <= h + m / B64 + 1
    ensures l == 0 ==> p / B128 == h + m / B64
  {
    var r := m % B64 * B64 + l;
    assert p == (h + m / B64) * B128 + r;
    if r < B128 {
      DivModUnique(p, B128, h + m / B64, r);
    } else {
      DivModUnique(p, B128, h + m / B64 + 1, r - B128);
    }
  }

  /** `r` is an inverse of `v` in units of 2^-128, too large by at most one unit of the last place. */
  ghost predicate IsInverse(v: int, r: int) {
    B128 <= v * r <= B128 + v
  }

  /** `r` is 2^128 / v rounded down. */
  ghost predicate FloorOf(v: int, r: int) {
    v * r <= B128 < v * r + v
  }

  /** `r` is 2^128 / v rounded up. */
  ghost predicate IsCeiling(v: int, r: int) {
    v * (r - 1) < B128 <= v * r
  }

  lemma RoundUp(v: int, r: int, exact: bool)
    requires 1 < v < B64 && FloorOf(v, r) && 0 < r <= B127
    requires exact <==> v * r == B128 && v != B63
    ensures var s := if exact then r else r + 1;
            IsInverse(v, s) && s < B63 * B64 + B64 && (IsCeiling(v, s) <==> v != B63)
  {
    assert v * (r + 1) == v * r + v;
    assert v * (r - 1) == v * r - v;
    if v == B63 { assert r == 2 * B64; }
  }

  /** The error of an inverse never reaches the next quotient of an integer, and at most the next one otherwise. */
  lemma InverseQuotient(a: int, v: int, r: int)
    requires 0 < v < B64 && 0 <= a <= B127 && IsInverse(v, r)
    ensures a / v <= a * r / B128 <= a / v + 1
    ensures a <= B63 ==> a * r / B128 == a / v
  {
    var e, q, s := v * r - B128, a / v, a % v;
    var x := a * r - q * B128;
    assert v * x == s * B128 + a * e by {
      assert v * (a * r) == a * (v * r) == a * B128 + a * e;
      assert a * B128 == q * v * B128 + s * B128 by { assert a == q * v + s; }
    }
    InverseError(a, e, v);
    QuotientWindow(v, x, s, a * e);
    if x < B128 {
      DivModUnique(a * r, B128, q, x);
    } else {
      DivModUnique(a * r, B128, q + 1, x - B128);
    }
  }

  lemma InverseError(a: int, e: int, v: int)
    requires 0 <= a <= B127 && 0 <= e <= v < B64
    ensures 0 <= a * e <= B127 * v
    ensures a <= B63 ==> a * e < B128
  {
    MulMonotone(0, a, e);
    MulMonotone(a, B127, e);
    if a <= B63 { MulMonotone(a, B63, e); }
  }

  lemma QuotientWindow(v: int, x: int, s: int, t: int)
    requires 0 <= s < v && 0 <= t <= B127 * v && v * x == s * B128 + t
    ensures 0 <= x < 2 * B128
    ensures t < B128 ==> x < B128
  {
    if x < 0 { MulMonotone(x, -1, v); }
    if x >= 2 * B128 { MulMonotone(2 * B128, x, v); }
    if t < B128 && x >= B128 { MulMonotone(B128, x, v); }
  }

  /** A divisor of a power of two is a power of two. */
  lemma {:induction false} DivisorOfPow2(x: int, y: int, k: nat) returns (i: nat)
    requires x > 0 && y > 0 && x * y == Pow2(k)
    ensures x == Pow2(i)
    decreases x + y
  {
    if x == 1 {
      i := 0;
    } else if x % 2 == 0 {
      HalfDivides(x, y, k);
      i := DivisorOfPow2(x / 2, y, k - 1);
      i := i + 1;
    } else {
      HalfDivides(y, x, k);
      i := DivisorOfPow2(x, y / 2, k - 1);
    }
  }

  lemma HalfDivides(x: int, y: int, k: nat)
    requires x > 0 && y > 0 && x * y == Pow2(k) && (x % 2 == 0 || (y % 2 == 1 && y > 1))
    ensures k > 0 && x % 2 == 0 && x / 2 > 0 && x / 2 * y == Pow2(k - 1)
  {
    if k == 0 {
      MulMonotone(1, x, y);
      MulMonotone(1, y, x);
    } else if x % 2 == 1 {
      OddProduct(x, y);
    } else {
      assert x * y == 2 * (x / 2) * y == 2 * (x / 2 * y);
    }
  }

  lemma OddProduct(x: nat, y: nat)
    requires x % 2 == 1 && y % 2 == 1
    ensures x * y % 2 == 1
  {
    var i, j := x / 2, y / 2;
    assert x * y == 2 * (i * y + j) + 1 by {
      assert x * y == (2 * i + 1) * y == 2 * (i * y) + y;
    }
  }

  /** No 64-bit number above 2^63 divides 2^128. */
  lemma LargeNeverDivides(v: u64, r: int)
    requires v > B63
    ensures v * r != B128
  {
    if v * r == B128 {
      if r <= 0 { MulMonotone(r, 0, v); }
      Pow2Limbs();
      Pow2Small();
      Pow2Add(63, 1);
      var i := DivisorOfPow2(v, r, 128);
      if i <= 63 { Pow2Monotone(i, 63); } else { Pow2Monotone(64, i); }
    }
  }

  // ---------------------------------------------------------------- the class

  type i64 = x: int | -B63 <= x < B63

  function AsSigned64(x: u64): i64 {
    if x >= B63 then x - B64 else x
  }

  /** The integer part, truncated toward zero; negating the least integer wraps to itself. */
  function IntegerPart(v: U128): i64 {
    var high: int := AsSigned64(Magnitude(v).hi);
    if v.Negative() then AsSigned64(Wrap64(-high)) else high
  }

  lemma IntegerPartTruncates(v: U128)
    ensures IntegerPart(v) == TruncDiv(v.Signed(), B64)
  {
    hide Magnitude;
    var m := Magnitude(v);
    assert m.hi == Abs(v.Signed()) / B64;
    var high: int := AsSigned64(m.hi);
    Wrap64Cases(-high);
  }

  class Int64x64 {
    var v: U128

    constructor (hi: u64, lo: u64)
      ensures v == U128(lo, hi)
    {
      v := U128(lo, hi);
    }

    /** False where the source aborts; otherwise the product, cut to 128 bits and truncated toward zero. */
    method Mul(o: Int64x64) returns (ok: bool)
      modifies this
      ensures var p := TruncDiv(old(v.Signed()) * old(o.v.Signed()), B64);
              && (ok ==> v.Value() == p % B128)
              && (!ok ==> v == old(v))
              && (Representable(p) <==> ok && v.Signed() == p)
    {
      hide Umul, WithSign, Magnitude, TruncDiv;
      var negative := v.Negative() != o.v.Negative();
      var a, b := Magnitude(v), Magnitude(o.v);
      ghost var m := a.Value() * b.Value() / B64;
      SignedProduct(v.Signed(), o.v.Signed());
      var result := Umul(a, b);
      if result.None? {
        HighWordsOverflow(a, b);
        ok := false;
      } else {
        WithSignModulo(negative, m, result.value);
        SignedOfValue(WithSign(negative, result.value), if negative then -m else m);
        v := WithSign(negative, result.value);
        ok := true;
      }
    }

    /** The quotient, cut to 128 bits and truncated toward zero. */
    method Div(o: Int64x64)
      requires o.v != ZERO
      modifies this
      ensures var q := TruncDiv(old(v.Signed()) * B64, old(o.v.Signed()));
              && v.Value() == q % B128
              && (Representable(q) <==> v.Signed() == q)
    {
      hide WithSign, Magnitude, TruncDiv, ScaledQuotient;
      var negative := v.Negative() != o.v.Negative();
      var a, b := Magnitude(v), Magnitude(o.v);
      NonZeroWord(o.v);
      SignedQuotient(v.Signed(), o.v.Signed());
      ghost var m := ScaledQuotient(a.Value(), b.Value());
      var result := Udiv(a, b);
      WithSignModulo(negative, m, result);
      SignedOfValue(WithSign(negative, result), if negative then -m else m);
      v := WithSign(negative, result);
    }

    /**
     * Multiply by an inverse; the sign is taken from this number alone. For any divisor that `o` is an inverse of, the
     * result is within one unit of 2^-64 of the truncated quotient, and its integer part is exact for integers. The
     * exact word is kept as well, because Invert multiplies by what need not be an inverse yet and looks at the bits.
     */
    method MulByInvert(o: Int64x64)
      modifies this
      ensures v == WithSign(old(v.Negative()), UmulByInvert(Magnitude(old(v)), old(o.v)))
      ensures forall d: u64 :: d > 1 && IsInverse(d, old(o.v.Value())) && old(o.v.hi) <= B63 ==>
                && Abs(v.Signed() - TruncDiv(old(v.Signed()), d)) <= 1
                && (old(v.lo) == 0 ==> TruncDiv(v.Signed(), B64) == TruncDiv(AsSigned64(old(v.hi)), d))
    {
      hide UmulByInvert, WithSign, Magnitude, TruncDiv, IsInverse, U128.Value, U128.Signed;
      forall d: u64 | d > 1 && IsInverse(d, o.v.Value()) && o.v.hi <= B63
        ensures var w := WithSign(v.Negative(), UmulByInvert(Magnitude(v), o.v));
                && Abs(w.Signed() - TruncDiv(v.Signed(), d)) <= 1
                && (v.lo == 0 ==> TruncDiv(w.Signed(), B64) == TruncDiv(AsSigned64(v.hi), d))
      {
        SignedDivisionByInverse(v, d, o.v);
      }
      var negative := v.Negative();
      var a := Magnitude(v);
      var result := UmulByInvert(a, o.v);
      v := WithSign(negative, result);
    }

    /** The inverse in Q0.128: the ceiling of 2^128 / n, or one unit more for the single divisor 2^63. */
    static method Invert(n: u64) returns (inverse: Int64x64)
      requires n > 1
      ensures fresh(inverse)
      ensures IsInverse(n, inverse.v.Value()) && inverse.v.hi <= B63
      ensures IsCeiling(n, inverse.v.Value()) <==> n != B63
    {
      hide IsInverse, IsCeiling, FloorOf, UmulByInvert, Add, WithSign, Magnitude, ScaledQuotient;
      var quotient := Udiv(U128(0, 1), U128(n, 0));
      ghost var r := quotient.Value();
      FloorInverse(n, r);
      inverse := new Int64x64(quotient.hi, quotient.lo);
      var tmp := new Int64x64(n, 0);
      tmp.MulByInvert(inverse);
      ProbeInverse(n, quotient);
      RoundUp(n, r, n * r == B128 && n != B63);
      if AsSigned64(tmp.v.hi) != 1 {
        SumFits(r, 1);
        inverse.v := Add(inverse.v, ONE);
      }
    }

    method GetInt() returns (n: i64)
      ensures n == TruncDiv(v.Signed(), B64)
    {
      IntegerPartTruncates(v);
      n := IntegerPart(v);
    }

    /** What the inverse is for: dividing any integer by a divisor that is known beforehand, exactly. */
    static method DivideByInvariant(n: i64, d: u64) returns (q: i64)
      requires d > 1
      ensures q == TruncDiv(n, d)
    {
      hide UmulByInvert, WithSign, Magnitude, TruncDiv, IsInverse, IsCeiling, U128.Value, U128.Signed;
      var inverse := Invert(d);
      var number := new Int64x64(Wrap64(n), 0);
      assert AsSigned64(Wrap64(n)) == n by { Wrap64Cases(n); }
      number.MulByInvert(inverse);
      q := number.GetInt();
    }
  }

  lemma NonZeroWord(a: U128)
    ensures a.Signed() == 0 <==> a == ZERO
  {
  }

  lemma FloorInverse(n: u64, r: int)
    requires n > 1 && r == ScaledQuotient(B64, n) % B128
    ensures FloorOf(n, r) && 0 < r <= B127
  {
    var q := B128 / n;
    assert B128 == q * n + B128 % n;
    assert q <= B127 by { if q > B127 { MulMonotone(2, n, q); } }
    SumFits(q, 0);
    assert q > 0 by { if q <= 0 { MulMonotone(q, 0, n); } }
  }

  /** The test that decides the last unit: multiplying back gives 1 exactly when 2^128 was divided without remainder. */
  lemma ProbeInverse(n: u64, quotient: U128)
    requires n > 1 && FloorOf(n, quotient.Value()) && quotient.Value() <= B127
    ensures var probe := WithSign(n >= B63, UmulByInvert(Magnitude(U128(0, n)), quotient));
            AsSigned64(probe.hi) == 1 <==> n * quotient.Value() == B128 && n != B63
  {
    hide UmulByInvert, WithSign;
    var r := quotient.Value();
    var k := if n < B63 then n else B64 - n;
    var a := Magnitude(U128(0, n));
    assert a == U128(0, k) by { MagnitudeOfInteger(n); }
    var u := UmulByInvert(a, quotient);
    UmulByInvertWithinOne(a, quotient);
    assert u.Value() == k * r / B64 by { ScaleDown(k, r); }
    MulMonotone(k, n, r);
    var x := k * r;
    assert 0 <= x <= B128 by { MulMonotone(0, k, r); }
    if n < B63 {
      SumFits(u.Value(), 0);
    } else {
      if n > B63 { LargeNeverDivides(n, r); }
      NegatedProbe(u);
    }
  }

  lemma MagnitudeOfInteger(n: u64)
    ensures Magnitude(U128(0, n)) == U128(0, if n < B63 then n else B64 - n)
  {
    hide Magnitude;
    ValueInjective(Magnitude(U128(0, n)), U128(0, if n < B63 then n else B64 - n));
  }

  lemma ScaleDown(k: int, r: int)
    ensures k * B64 * r / B128 == k * r / B64
  {
    var x := k * r;
    assert k * B64 * r == x * B64;
    DivModUnique(x * B64, B128, x / B64, x % B64 * B64);
  }

  lemma NegatedProbe(u: U128)
    requires u.Value() <= B64
    ensures AsSigned64(WithSign(true, u).hi) != 1
  {
    hide WithSign;
    if u.Value() > 0 {
      DivModUnique(-u.Value(), B128, -1, B128 - u.Value());
    }
  }

  /** Dividing an integer by a precomputed inverse is exact, for every 64-bit integer and every divisor above one. */
  lemma IntegerDivisionByInverse(n: i64, d: u64, inverse: U128)
    requires d > 1 && IsInverse(d, inverse.Value()) && inverse.hi <= B63
    ensures var a := U128(0, Wrap64(n));
            IntegerPart(WithSign(a.Negative(), UmulByInvert(Magnitude(a), inverse))) == TruncDiv(n, d)
  {
    hide UmulByInvert, WithSign, Magnitude, TruncDiv, IntegerPart;
    Wrap64Cases(n);
    var a := U128(0, Wrap64(n));
    var k := Abs(n);
    MagnitudeOfInteger(a.hi);
    var u := UmulByInvert(U128(0, k), inverse);
    UmulByInvertWithinOne(U128(0, k), inverse);
    ScaleDown(k, inverse.Value());
    InverseQuotient(k, d, inverse.Value());
    assert u.Value() / B64 == k / d by { NestedDivision(k * inverse.Value()); }
    var w := WithSign(n < 0, u);
    IntegerPartTruncates(w);
    TruncOfSigned(n, d, u, w);
  }

  /** The signed product by an inverse, for any number and for integers. */
  lemma SignedDivisionByInverse(a: U128, d: u64, inverse: U128)
    requires d > 1 && IsInverse(d, inverse.Value()) && inverse.hi <= B63
    ensures var w := WithSign(a.Negative(), UmulByInvert(Magnitude(a), inverse));
            && Abs(w.Signed() - TruncDiv(a.Signed(), d)) <= 1
            && (a.lo == 0 ==> TruncDiv(w.Signed(), B64) == TruncDiv(AsSigned64(a.hi), d))
  {
    hide UmulByInvert, WithSign, Magnitude, TruncDiv, IsInverse;
    var m := Magnitude(a);
    DivisionByInverseWithinOne(m, d, inverse);
    var u := UmulByInvert(m, inverse);
    var w := WithSign(a.Negative(), u);
    NearQuotient(a.Signed(), d, u.Value());
    SignedOfValue(w, if a.Negative() then -u.Value() else u.Value());
    if a.lo == 0 {
      var n := AsSigned64(a.hi);
      Wrap64Cases(n);
      assert a == U128(0, Wrap64(n));
      IntegerDivisionByInverse(n, d, inverse);
      IntegerPartTruncates(w);
    }
  }

  lemma NearQuotient(x: int, d: int, u: int)
    requires -B127 <= x < B127 && d > 1 && Abs(x) / d - 1 <= u <= Abs(x) / d + 1
    ensures var w := if x < 0 then -u else u;
            -B127 <= w < B127 && Abs(w - TruncDiv(x, d)) <= 1
  {
    QuotientAtMostHalf(Abs(x), d);
    TruncOfMagnitude(x, d, Abs(x) / d);
  }

  lemma TruncOfMagnitude(x: int, d: int, q: int)
    requires d > 1 && q == Abs(x) / d
    ensures TruncDiv(x, d) == if x < 0 then -q else q
  {
  }

  lemma NestedDivision(x: int)
    ensures x / B64 / B64 == x / B128
  {
  }

  lemma TruncOfSigned(n: i64, d: u64, u: U128, w: U128)
    requires d > 1 && u.Value() / B64 == Abs(n) / d && w.Value() == (if n < 0 then -u.Value() else u.Value()) % B128
    ensures TruncDiv(w.Signed(), B64) == TruncDiv(n, d)
  {
    QuotientAtMostHalf(Abs(n), d);
    SignedOfValue(w, if n < 0 then -u.Value() else u.Value());
  }

  lemma QuotientAtMostHalf(k: nat, d: int)
    requires d > 1
    ensures 0 <= k / d && 2 * (k / d) <= k
  {
    var q := k / d;
    assert q >= 0 && q * d <= k;
    MulMonotone(2, d, q);
  }

  /** For any non-negative number the result is within one unit of 2^-64 of the rounded-down quotient. */
  lemma DivisionByInverseWithinOne(a: U128, d: u64, inverse: U128)
    requires a.Value() <= B127 && d > 1 && IsInverse(d, inverse.Value()) && inverse.hi <= B63
    ensures a.Value() / d - 1 <= UmulByInvert(a, inverse).Value() <= a.Value() / d + 1
  {
    hide UmulByInvert;
    UmulByInvertWithinOne(a, inverse);
    InverseQuotient(a.Value(), d, inverse.Value());
  }
}
