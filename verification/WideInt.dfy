/** Two-limb 128-bit integers, as the fixed-point type uses them when the compiler has no native one. */
module WideInt {
  import opened Arithmetic

  const B32: int := 0x1_0000_0000
  const B63: int := 0x8000_0000_0000_0000
  const B64: int := 0x1_0000_0000_0000_0000
  const B127: int := 0x8000_0000_0000_0000_0000_0000_0000_0000
  const B128: int := 0x1_0000_0000_0000_0000_0000_0000_0000_0000

  type u32 = x: int | 0 <= x < B32
  type u64 = x: int | 0 <= x < B64

  /** A 128-bit word; the same limbs are read as unsigned (`Value`) or as two's complement (`Signed`). */
  datatype U128 = U128(lo: u64, hi: u64) {

    function Value(): (v: int)
      ensures 0 <= v < B128
    {
      hi * B64 + lo
    }

    predicate Negative() {
      hi >= B63
    }

    function Signed(): (v: int)
      ensures -B127 <= v < B127
      ensures Negative() <==> v < 0
      ensures v % B128 == Value()
    {
      if Negative() then Value() - B128 else Value()
    }
  }

  datatype UQuoRem128 = UQuoRem128(quo: U128, rem: U128)

  datatype UQuoRem64 = UQuoRem64(quo: u64, rem: u64)

  const ZERO := U128(0, 0)
  const ONE := U128(1, 0)

  /** Two words with the same value are the same word. */
  lemma ValueInjective(a: U128, b: U128)
    requires a.Value() == b.Value()
    ensures a == b
  {
    assert a.hi == b.hi;
  }

  // ---------------------------------------------------------------- powers of two

  function Pow2(n: nat): (p: int)
    ensures p >= 1
  {
    if n == 0 then 1 else 2 * Pow2(n - 1)
  }

  lemma {:induction false} Pow2Add(m: nat, n: nat)
    ensures Pow2(m + n) == Pow2(m) * Pow2(n)
  {
    if m > 0 {
      Pow2Add(m - 1, n);
      assert m - 1 + n == m + n - 1;
      assert 2 * (Pow2(m - 1) * Pow2(n)) == (2 * Pow2(m - 1)) * Pow2(n);
    }
  }

  lemma {:induction false} Pow2Monotone(m: nat, n: nat)
    requires m <= n
    ensures Pow2(m) <= Pow2(n)
  {
    if m < n {
      Pow2Monotone(m, n - 1);
    }
  }

  lemma Pow2Small()
    ensures Pow2(0) == 1 && Pow2(1) == 2 && Pow2(8) == 0x100
  {
  }

  lemma Pow2Limbs()
    ensures Pow2(32) == B32 && Pow2(64) == B64 && Pow2(127) == B127 && Pow2(128) == B128
  {
    hide Pow2;
    Pow2Small();
    Pow2Add(8, 8);
    Pow2Add(16, 16);
    Pow2Add(32, 32);
    Pow2Add(64, 64);
    Pow2Add(1, 127);
  }

  // ---------------------------------------------------------------- 128-bit operations

  /** Machine 64-bit wrap-around. */
  function Wrap64(x: int): u64 {
    x % B64
  }

  lemma Wrap64Cases(x: int)
    requires -B64 <= x < 2 * B64
    ensures Wrap64(x) == if x < 0 then x + B64 else if x < B64 then x else x - B64
  {
    DivModUnique(x, B64, if x < 0 then -1 else if x < B64 then 0 else 1,
                 if x < 0 then x + B64 else if x < B64 then x else x - B64);
  }

  function FromU64(x: u64): U128 {
    U128(x, 0)
  }

  function Add(a: U128, b: U128): (s: U128)
    ensures s.Value() == (a.Value() + b.Value()) % B128
  {
    AddLimbs(a.hi, a.lo, b.hi, b.lo);
    var hi := Wrap64(a.hi + b.hi);
    var lo := Wrap64(a.lo + b.lo);
    if lo < a.lo then U128(lo, Wrap64(hi + 1)) else U128(lo, hi)
  }

  lemma AddLimbs(ah: u64, al: u64, bh: u64, bl: u64)
    ensures var hi, lo := Wrap64(ah + bh), Wrap64(al + bl);
            (if lo < al then Wrap64(hi + 1) else hi) * B64 + lo == (ah * B64 + al + (bh * B64 + bl)) % B128
  {
    hide Wrap64;
    var hi: int, lo: int := Wrap64(ah + bh), Wrap64(al + bl);
    Wrap64Cases(ah + bh);
    Wrap64Cases(al + bl);
    Wrap64Cases(hi + 1);
    var v := ah * B64 + al + (bh * B64 + bl);
    var w := (if lo < al then Wrap64(hi + 1) else hi) * B64 + lo;
    DivModUnique(v, B128, if v < B128 then 0 else 1, w);
  }

  function Sub(a: U128, b: U128): (s: U128)
    ensures s.Value() == (a.Value() - b.Value()) % B128
  {
    SubLimbs(a.hi, a.lo, b.hi, b.lo);
    var hi := Wrap64(a.hi - b.hi);
    var lo := Wrap64(a.lo - b.lo);
    if lo > a.lo then U128(lo, Wrap64(hi - 1)) else U128(lo, hi)
  }

  lemma SubLimbs(ah: u64, al: u64, bh: u64, bl: u64)
    ensures var hi, lo := Wrap64(ah - bh), Wrap64(al - bl);
            (if lo > al then Wrap64(hi - 1) else hi) * B64 + lo == (ah * B64 + al - (bh * B64 + bl)) % B128
  {
    hide Wrap64;
    var hi: int, lo: int := Wrap64(ah - bh), Wrap64(al - bl);
    Wrap64Cases(ah - bh);
    Wrap64Cases(al - bl);
    Wrap64Cases(hi - 1);
    var v := ah * B64 + al - (bh * B64 + bl);
    var w := (if lo > al then Wrap64(hi - 1) else hi) * B64 + lo;
    DivModUnique(v, B128, if v < 0 then -1 else 0, w);
  }

  function Not64(x: u64): u64 {
    B64 - 1 - x
  }

  function Negate(a: U128): (s: U128)
    ensures s.Value() == -a.Value() % B128
  {
    var n := U128(Not64(a.lo), Not64(a.hi));
    ComplementPlusOne(a.Value(), n.Value());
    Add(n, ONE)
  }

  lemma ComplementPlusOne(v: int, n: int)
    requires n == B128 - 1 - v
    ensures (n + 1) % B128 == -v % B128
  {
    ModAddMultiple(-v, 1, B128);
  }

  predicate Lt(a: U128, b: U128)
    ensures Lt(a, b) <==> a.Value() < b.Value()
  {
    a.hi < b.hi || (a.hi == b.hi && a.lo < b.lo)
  }

  predicate Le(a: U128, b: U128)
    ensures Le(a, b) <==> a.Value() <= b.Value()
  {
    !Lt(b, a)
  }

  predicate SignedLt(a: U128, b: U128)
    ensures SignedLt(a, b) <==> a.Signed() < b.Signed()
  {
    if a.Negative() && !b.Negative() then true
    else if !a.Negative() && b.Negative() then false
    else Lt(a, b)
  }

  /** The two halves of a word shifted left by `p`, where `p * c` is the limb size. */
  lemma LslLimbs(hi: u64, lo: u64, p: int, c: int)
    requires p > 0 && c > 0 && p * c == B64
    ensures Wrap64(Wrap64(hi * p) + lo / c) * B64 + Wrap64(lo * p) == (hi * B64 + lo) * p % B128
  {
    var q, r := lo / c, lo % c;
    LowLimb(lo, p, c);
    var x := hi * p;
    assert (hi * B64 + lo) * p == x * B64 + q * B64 + r * p by {
      assert (hi * B64 + lo) * p == hi * p * B64 + lo * p;
    }
    HighLimb(x, q, r * p);
  }

  lemma LowLimb(lo: u64, p: int, c: int)
    requires p > 0 && c > 0 && p * c == B64
    ensures 0 <= lo % c * p < B64
    ensures lo * p == lo / c * B64 + lo % c * p
    ensures Wrap64(lo * p) == lo % c * p
  {
    var q, r := lo / c, lo % c;
    assert lo * p == q * B64 + r * p by {
      assert lo == q * c + r;
      assert lo * p == q * (p * c) + r * p;
    }
    assert r * p < B64 by {
      MulMonotone(r, c - 1, p);
      assert (c - 1) * p == B64 - p;
    }
    assert 0 <= r * p;
    DivModUnique(lo * p, B64, q, r * p);
  }

  lemma HighLimb(x: int, q: int, l: int)
    requires 0 <= l < B64
    ensures Wrap64(Wrap64(x) + q) * B64 + l == (x * B64 + q * B64 + l) % B128
  {
    var y := Wrap64(x) + q;
    var h, k := y % B64, y / B64 + x / B64;
    DivModUnique(x * B64 + q * B64 + l, B128, k, h * B64 + l);
  }

  function Lsl(a: U128, shift: nat): (r: U128)
    requires shift < 128
    ensures r.Value() == a.Value() * Pow2(shift) % B128
  {
    var b := if shift >= 64 then U128(0, a.lo) else a;
    var s := if shift >= 64 then shift - 64 else shift;
    var r := if s != 0 then
        U128(Wrap64(b.lo * Pow2(s)), Wrap64(Wrap64(b.hi * Pow2(s)) + b.lo / Pow2(64 - s)))
      else
        b;
    assert r.Value() == a.Value() * Pow2(shift) % B128 by {
      LslWithinLimb(b, s, r);
      LslByLimb(a, shift);
    }
    r
  }

  lemma LslWithinLimb(b: U128, s: nat, r: U128)
    requires s < 64
    requires r == if s != 0
                  then U128(Wrap64(b.lo * Pow2(s)), Wrap64(Wrap64(b.hi * Pow2(s)) + b.lo / Pow2(64 - s)))
                  else b
    ensures r.Value() == b.Value() * Pow2(s) % B128
  {
    hide Pow2;
    Pow2Small();
    if s != 0 {
      Pow2Limbs();
      Pow2Add(s, 64 - s);
      LslLimbs(b.hi, b.lo, Pow2(s), Pow2(64 - s));
    } else {
      DivModUnique(b.Value(), B128, 0, b.Value());
    }
  }

  lemma LslByLimb(a: U128, shift: nat)
    requires shift < 128
    ensures shift >= 64 ==> U128(0, a.lo).Value() * Pow2(shift - 64) % B128 == a.Value() * Pow2(shift) % B128
  {
    hide Pow2;
    if shift >= 64 {
      Pow2Limbs();
      Pow2Add(64, shift - 64);
      HighLimbShiftedOut(a.hi, a.lo, Pow2(shift - 64));
    }
  }

  lemma HighLimbShiftedOut(hi: int, lo: int, p: int)
    ensures lo * B64 * p % B128 == (hi * B64 + lo) * (B64 * p) % B128
  {
    assert (hi * B64 + lo) * (B64 * p) == lo * B64 * p + hi * p * B128;
    ModAddMultiple(lo * B64 * p, hi * p, B128);
  }

  /** Logical right shift: by a whole limb first, then within the limbs. */
  function Rsl(a: U128, shift: nat): (r: U128)
    requires shift < 128
    ensures r.Value() == a.Value() / Pow2(shift)
  {
    if shift >= 64 then
      RslLimbFirst(a, shift);
      RslWithinLimb(U128(a.hi, 0), shift - 64)
    else
      RslWithinLimb(a, shift)
  }

  function RslWithinLimb(a: U128, s: nat): (r: U128)
    requires s < 64
    ensures r.Value() == a.Value() / Pow2(s)
  {
    RslParts(a.hi, a.lo, s);
    if s == 0 then a else U128(Wrap64(a.lo / Pow2(s) + Wrap64(a.hi * Pow2(64 - s))), a.hi / Pow2(s))
  }

  lemma RslParts(hi: u64, lo: u64, s: nat)
    requires s < 64
    ensures Pow2(0) == 1 && 0 <= hi / Pow2(s) < B64
    ensures hi / Pow2(s) * B64 + Wrap64(lo / Pow2(s) + Wrap64(hi * Pow2(64 - s))) == (hi * B64 + lo) / Pow2(s)
  {
    hide Pow2;
    Pow2Small();
    Pow2Limbs();
    Pow2Add(s, 64 - s);
    RslLimbs(hi, lo, Pow2(s), Pow2(64 - s));
  }

  lemma RslLimbFirst(a: U128, shift: nat)
    requires 64 <= shift < 128
    ensures a.Value() / Pow2(shift) == U128(a.hi, 0).Value() / Pow2(shift - 64)
  {
    hide Pow2;
    Pow2Limbs();
    Pow2Add(64, shift - 64);
    RslByLimb(a, Pow2(shift - 64));
  }

  lemma RslByLimb(a: U128, p: int)
    requires p > 0
    ensures a.Value() / (B64 * p) == a.hi / p
  {
    var q, r := a.hi / p, a.hi % p;
    assert a.Value() == q * (B64 * p) + (r * B64 + a.lo) by {
      assert a.hi * B64 == (q * p + r) * B64;
      assert q * p * B64 == q * (B64 * p);
    }
    MulMonotone(r, p - 1, B64);
    DivModUnique(a.Value(), B64 * p, q, r * B64 + a.lo);
  }

  function Rsl1(a: U128): (r: U128)
    ensures r.Value() == a.Value() / 2
  {
    Pow2Small();
    Rsl(a, 1)
  }

  function Rsl32(a: U128): (r: U128)
    ensures r.Value() == a.Value() / B32
  {
    Pow2Limbs();
    Rsl(a, 32)
  }

  lemma RslLimbs(hi: u64, lo: u64, p: int, c: int)
    requires p > 0 && c > 0 && p * c == B64
    ensures 0 <= hi / p < B64
    ensures hi / p * B64 + Wrap64(lo / p + Wrap64(hi * c)) == (hi * B64 + lo) / p
  {
    RslDivision(hi, lo, p, c);
    LowLimb(hi, c, p);
    DivBound(lo, p, c);
    DivBound(hi, p, c);
    var x := hi % p * c;
    assert x <= B64 - c by {
      MulMonotone(hi % p, p - 1, c);
    }
    Wrap64Cases(lo / p + x);
    assert c <= B64 by { MulMonotone(1, p, c); }
  }

  lemma DivBound(n: int, p: int, c: int)
    requires p > 0 && 0 <= n < p * c
    ensures 0 <= n / p < c
  {
    if n / p >= c { MulMonotone(c, n / p, p); }
  }

  lemma RslDivision(hi: int, lo: int, p: int, c: int)
    requires p > 0 && p * c == B64
    ensures (hi * B64 + lo) / p == hi / p * B64 + (lo / p + hi % p * c)
  {
    var q, r, l, m := hi / p, hi % p, lo / p, lo % p;
    assert hi * B64 == q * B64 * p + r * c * p by {
      assert hi * B64 == (q * p + r) * B64;
      assert r * c * p == r * (p * c);
    }
    assert hi * B64 + lo == (q * B64 + (l + r * c)) * p + m by {
      assert (q * B64 + (l + r * c)) * p == q * B64 * p + (l * p + r * c * p);
    }
    DivModUnique(hi * B64 + lo, p, q * B64 + (l + r * c), m);
  }

  // ---------------------------------------------------------------- multiplication

  /** Schoolbook product of two 64-bit words from four 32-bit products and one carry. */
  function Mul64x64(a: u64, b: u64): (s: U128)
    ensures s.Value() == a * b
  {
    var al, ah, bl, bh := a % B32, a / B32, b % B32, b / B32;
    PartialProduct(al, bl);
    PartialProduct(al, bh);
    PartialProduct(ah, bl);
    PartialProduct(ah, bh);
    ProductOfHalves(a, b);
    SumOfParts(al * bl, al * bh, ah * bl, ah * bh)
  }

  function SumOfParts(r0: int, r1: int, r2: int, r3: int): (s: U128)
    requires 0 <= r0 <= (B32 - 1) * (B32 - 1) && 0 <= r1 <= (B32 - 1) * (B32 - 1)
    requires 0 <= r2 <= (B32 - 1) * (B32 - 1) && 0 <= r3 <= (B32 - 1) * (B32 - 1)
    ensures s.Value() == (r3 * B64 + (r1 + r2) * B32 + r0) % B128
  {
    var m := Wrap64(Wrap64(r1 + r0 / B32) + r2);
    var top := if m < r2 then Wrap64(r3 + B32) else r3;
    var s := U128(Wrap64(Wrap64(m * B32) + r0 % B32), Wrap64(top + m / B32));
    SumPartialProducts(r0, r1, r2, r3, m, top, s);
    s
  }

  lemma ProductOfHalves(a: u64, b: u64)
    ensures var al, ah, bl, bh := a % B32, a / B32, b % B32, b / B32;
            (ah * bh * B64 + (al * bh + ah * bl) * B32 + al * bl) % B128 == a * b
  {
    var al, ah, bl, bh := a % B32, a / B32, b % B32, b / B32;
    assert a * b == ah * bh * B64 + (al * bh + ah * bl) * B32 + al * bl by {
      assert a * b == (ah * B32 + al) * b == ah * b * B32 + al * b;
      assert ah * b == ah * (bh * B32 + bl) == ah * bh * B32 + ah * bl;
      assert al * b == al * (bh * B32 + bl) == al * bh * B32 + al * bl;
    }
    ProductBound(a, b, B64);
    DivModUnique(a * b, B128, 0, a * b);
  }

  lemma ProductBound(x: int, y: int, n: int)
    requires 0 <= x < n && 0 <= y < n
    ensures 0 <= x * y <= (n - 1) * (n - 1)
  {
    MulMonotone(x, n - 1, y);
    MulMonotone(y, n - 1, n - 1);
  }

  lemma PartialProduct(x: u32, y: u32)
    ensures 0 <= x * y <= (B32 - 1) * (B32 - 1)
  {
    ProductBound(x, y, B32);
  }

  lemma SumPartialProducts(r0: int, r1: int, r2: int, r3: int, m: u64, top: u64, s: U128)
    requires 0 <= r0 <= (B32 - 1) * (B32 - 1) && 0 <= r1 <= (B32 - 1) * (B32 - 1)
    requires 0 <= r2 <= (B32 - 1) * (B32 - 1) && 0 <= r3 <= (B32 - 1) * (B32 - 1)
    requires m == Wrap64(Wrap64(r1 + r0 / B32) + r2)
    requires top == if m < r2 then Wrap64(r3 + B32) else r3
    requires s == U128(Wrap64(Wrap64(m * B32) + r0 % B32), Wrap64(top + m / B32))
    ensures s.Value() == (r3 * B64 + (r1 + r2) * B32 + r0) % B128
  {
    var c := MiddleCarry(r0, r1, r2, r3, m, top);
    var t, l := top + m / B32, m % B32;
    LowHalf(m, r0);
    assert t * B64 + s.lo == r3 * B64 + (r1 + r2) * B32 + r0;
    SumOfHalves(t, s);
  }

  lemma MiddleCarry(r0: int, r1: int, r2: int, r3: int, m: u64, top: u64) returns (c: int)
    requires 0 <= r0 <= (B32 - 1) * (B32 - 1) && 0 <= r1 <= (B32 - 1) * (B32 - 1)
    requires 0 <= r2 <= (B32 - 1) * (B32 - 1) && 0 <= r3 <= (B32 - 1) * (B32 - 1)
    requires m == Wrap64(Wrap64(r1 + r0 / B32) + r2)
    requires top == if m < r2 then Wrap64(r3 + B32) else r3
    ensures 0 <= c <= 1 && m + c * B64 == r1 + r0 / B32 + r2 && top == r3 + c * B32
  {
    c := if r1 + r0 / B32 + r2 < B64 then 0 else 1;
    Wrap64Cases(r1 + r0 / B32);
    Wrap64Cases(r1 + r0 / B32 + r2);
    Wrap64Cases(r3 + B32);
  }

  lemma LowHalf(m: u64, r0: nat)
    ensures Wrap64(Wrap64(m * B32) + r0 % B32) == m % B32 * B32 + r0 % B32
  {
    DivModUnique(m * B32, B64, m / B32, m % B32 * B32);
    Wrap64Cases(m % B32 * B32 + r0 % B32);
  }

  lemma SumOfHalves(t: int, s: U128)
    requires s.hi == Wrap64(t)
    ensures s.Value() == (t * B64 + s.lo) % B128
  {
    DivModUnique(t * B64 + s.lo, B128, t / B64, s.Value());
  }

  // ---------------------------------------------------------------- 128-bit division

  /** Bit-at-a-time division. A zero denominator never leaves the first loop when the numerator is positive. */
  method DivRem(numerator: U128, denominator: U128) returns (qr: UQuoRem128)
    requires denominator.Value() > 0
    ensures QuoRem(numerator.Value(), denominator.Value(), qr)
  {
    var num, den := numerator, denominator;
    ghost var n, d := num.Value(), den.Value();
    var bit := ONE;
    ghost var k: nat := 0;
    while Lt(den, num) && !den.Negative()
      invariant Aligned(bit, den, d, k)
      decreases B128 - den.Value()
    {
      NormalizeStep(bit, den, d, k);
      bit := Lsl(bit, 1);
      den := Lsl(den, 1);
      k := k + 1;
    }
    var quo := ZERO;
    while bit != ZERO
      invariant n == quo.Value() * d + num.Value()
      invariant bit != ZERO ==> Aligned(bit, den, d, k) && num.Value() < 2 * den.Value()
      invariant bit == ZERO ==> num.Value() < d
      decreases bit.Value()
    {
      if Le(den, num) {
        SubtractStep(n, d, quo, bit, den, num, k);
        num := Sub(num, den);
        quo := Add(quo, bit);
      }
      HalveStep(bit, den, d, k);
      bit := Rsl1(bit);
      den := Rsl1(den);
      k := if k > 0 then k - 1 else 0;
    }
    qr := UQuoRem128(quo, num);
  }

  /** `qr` is the exact quotient and the reduced remainder of `n` by `d`. */
  ghost predicate QuoRem(n: int, d: int, qr: UQuoRem128) {
    n == qr.quo.Value() * d + qr.rem.Value() && qr.rem.Value() < d
  }

  lemma QuoRemIsDivMod(n: int, d: int, qr: UQuoRem128)
    requires QuoRem(n, d, qr)
    ensures d > 0 && qr.quo.Value() == n / d && qr.rem.Value() == n % d
  {
    DivModUnique(n, d, qr.quo.Value(), qr.rem.Value());
  }

  /** `bit` is the k-th power of two and `den` the original denominator shifted as far. */
  ghost predicate Aligned(bit: U128, den: U128, d: int, k: nat) {
    bit.Value() == Pow2(k) && den.Value() == d * Pow2(k)
  }

  lemma NormalizeStep(bit: U128, den: U128, d: int, k: nat)
    requires d >= 1 && Aligned(bit, den, d, k) && !den.Negative()
    ensures Aligned(Lsl(bit, 1), Lsl(den, 1), d, k + 1)
    ensures den.Value() < Lsl(den, 1).Value()
  {
    var p := Pow2(k);
    assert Pow2(1) == 2;
    MulMonotone(1, d, p);
    assert d * (2 * p) == 2 * (d * p);
    DivModUnique(2 * p, B128, 0, 2 * p);
    DivModUnique(2 * (d * p), B128, 0, 2 * (d * p));
  }

  lemma HalveStep(bit: U128, den: U128, d: int, k: nat)
    requires Aligned(bit, den, d, k)
    ensures Rsl1(bit).Value() < bit.Value()
    ensures k > 0 ==> Rsl1(bit) != ZERO && 2 * Rsl1(den).Value() == den.Value()
    ensures k > 0 ==> Aligned(Rsl1(bit), Rsl1(den), d, k - 1)
    ensures k == 0 ==> Rsl1(bit) == ZERO && den.Value() == d
  {
    hide Rsl1, U128.Value, Pow2;
    if k > 0 {
      Pow2Step(k);
      HalveAligned(den.Value(), d, Pow2(k - 1));
    } else {
      Pow2Small();
      ZeroValue();
      ValueInjective(Rsl1(bit), ZERO);
    }
    assert ZERO.Value() == 0 by { ZeroValue(); }
  }

  lemma ZeroValue()
    ensures ZERO.Value() == 0
  {
  }

  lemma Pow2Step(k: nat)
    requires k > 0
    ensures Pow2(k) == 2 * Pow2(k - 1)
  {
  }

  lemma HalveAligned(den: int, d: int, p: int)
    requires den == d * (2 * p)
    ensures den / 2 == d * p && den % 2 == 0
  {
    assert d * (2 * p) == 2 * (d * p);
  }

  lemma SubtractStep(n: int, d: int, quo: U128, bit: U128, den: U128, num: U128, k: nat)
    requires d >= 1 && n < B128 && Aligned(bit, den, d, k) && Le(den, num)
    requires n == quo.Value() * d + num.Value()
    ensures Sub(num, den).Value() == num.Value() - den.Value()
    ensures n == Add(quo, bit).Value() * d + Sub(num, den).Value()
  {
    var v := num.Value() - den.Value();
    DivModUnique(v, B128, 0, v);
    var q := quo.Value() + Pow2(k);
    QuotientFits(n, d, quo.Value(), Pow2(k), num.Value());
    DivModUnique(q, B128, 0, q);
  }

  /** A quotient that has not used up the numerator can take the next bit without overflow. */
  lemma QuotientFits(n: int, d: int, quo: int, bit: int, num: int)
    requires d >= 1 && quo >= 0 && bit >= 1 && n < B128
    requires n == quo * d + num && num >= d * bit
    ensures quo + bit < B128
    ensures n == (quo + bit) * d + (num - d * bit)
  {
    assert (quo + bit) * d == quo * d + bit * d;
    MulMonotone(1, d, quo + bit);
  }

  // ---------------------------------------------------------------- signed division

  function Abs(x: int): (r: nat) {
    if x < 0 then -x else x
  }

  /** The quotient C computes for negative operands: rounded toward zero. */
  function TruncDiv(n: int, d: int): int
    requires d != 0
  {
    if (n < 0) == (d < 0) then Abs(n) / Abs(d) else -(Abs(n) / Abs(d))
  }

  function TruncRem(n: int, d: int): int
    requires d != 0
  {
    if n < 0 then -(Abs(n) % Abs(d)) else Abs(n) % Abs(d)
  }

  /** What makes it a truncating division: the two parts rebuild `n`, and the remainder is short and has its sign. */
  lemma TruncDivTruncates(n: int, d: int)
    requires d != 0
    ensures n == TruncDiv(n, d) * d + TruncRem(n, d)
    ensures Abs(TruncRem(n, d)) < Abs(d)
    ensures TruncRem(n, d) != 0 ==> (TruncRem(n, d) < 0 <==> n < 0)
  {
    var q, e := Abs(n) / Abs(d), Abs(d);
    assert Abs(n) == q * e + Abs(n) % e;
    assert -q * e == -(q * e) == q * -e;
  }

  /** The unsigned magnitude of a signed word; the least value is its own negation and reads as 2^127. */
  function Magnitude(a: U128): (m: U128)
    ensures m.Value() == Abs(a.Signed())
  {
    var m := if a.Negative() then Negate(a) else a;
    assert a.Negative() ==> m.Value() == -a.Signed() by {
      if a.Negative() { DivModUnique(-a.Value(), B128, -1, B128 - a.Value()); }
    }
    m
  }

  /** Give a magnitude the sign asked for. */
  function WithSign(negative: bool, m: U128): (r: U128)
    ensures r.Value() == (if negative then -m.Value() else m.Value()) % B128
  {
    DivModUnique(m.Value(), B128, 0, m.Value());
    if negative then Negate(m) else m
  }

  lemma SignedOfValue(a: U128, v: int)
    requires a.Value() == v % B128
    ensures -B127 <= v < B127 <==> a.Signed() == v
  {
    if -B127 <= v < B127 {
      DivModUnique(v, B128, if v < 0 then -1 else 0, if v < 0 then v + B128 else v);
    }
  }

  method SignedDivRem(num: U128, den: U128) returns (qr: UQuoRem128)
    requires den.Signed() != 0
    ensures qr.quo.Value() == TruncDiv(num.Signed(), den.Signed()) % B128
    ensures qr.rem.Signed() == TruncRem(num.Signed(), den.Signed())
  {
    hide Magnitude, WithSign, U128.Value, TruncDiv, TruncRem, QuoRem;
    var uqr := DivRem(Magnitude(num), Magnitude(den));
    SignedParts(num.Signed(), den.Signed(), uqr);
    var quo := WithSign(num.Negative() != den.Negative(), uqr.quo);
    var rem := WithSign(num.Negative(), uqr.rem);
    SignedOfValue(rem, TruncRem(num.Signed(), den.Signed()));
    qr := UQuoRem128(quo, rem);
  }

  lemma SignedParts(n: int, d: int, qr: UQuoRem128)
    requires d != 0 && QuoRem(Abs(n), Abs(d), qr) && -B127 <= n < B127 && -B127 <= d < B127
    ensures TruncDiv(n, d) == if (n < 0) != (d < 0) then -qr.quo.Value() else qr.quo.Value()
    ensures TruncRem(n, d) == (if n < 0 then -qr.rem.Value() else qr.rem.Value()) && -B127 <= TruncRem(n, d) < B127
  {
    hide U128.Value;
    QuoRemIsDivMod(Abs(n), Abs(d), qr);
  }
}
