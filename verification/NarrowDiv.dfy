/** Division of a 96-bit numerator by a 64-bit denominator using only 64-by-64-bit divisions. */
module NarrowDiv {
  import opened Arithmetic
  import opened WideInt

  const B31: int := 0x8000_0000
  const OVERFLOW: u64 := B64 - 1

  function DivRem64(num: u64, den: u64): UQuoRem64
    requires den > 0
  {
    DivBounds(num, den);
    UQuoRem64(num / den, num % den)
  }

  lemma DivBounds(n: nat, d: nat)
    requires d > 0
    ensures 0 <= n / d <= n && 0 <= n % d < d
  {
    MulMonotone(1, d, n / d);
  }

  lemma DivRem64Splits(num: u64, den: u64)
    requires den > 0
    ensures num == DivRem64(num, den).quo * den + DivRem64(num, den).rem
    ensures DivRem64(num, den).rem < den
  {
  }

  lemma DivRem64Unique(num: u64, den: u64, quo: u64, rem: u64)
    requires rem < den && num == quo * den + rem
    ensures DivRem64(num, den) == UQuoRem64(quo, rem)
  {
    DivModUnique(num, den, quo, rem);
  }

  /**
   * Minus a 32-bit word as the source computes it: cast to a signed 32-bit integer, negated, then widened to 64 bits.
   * Values up to 2^31 become negative on the way and so come out as 2^64 - v instead of 2^32 - v.
   */
  function NegatedLowWord(v: u32): u64
    requires v > 0
  {
    if v <= B31 then B64 - v else B32 - v
  }

  /** The term the first quotient estimate leaves out; `v` is the low word of the denominator. */
  function MainTerm(q: u32, v: u32): u64 {
    if v != 0 then Wrap64(q * NegatedLowWord(v)) else q * B32
  }

  /** The first estimate x / (u + 1), watching for wrap-around of u + 1; both parts are cut to 32 bits. */
  function FirstEstimate(x: u64, u: u32): UQuoRem64 {
    if (u + 1) % B32 != 0 then
      var qr := DivRem64(x, u + 1);
      UQuoRem64(qr.quo % B32, qr.rem % B32)
    else
      UQuoRem64(x / B32, x % B32)
  }

  function DivRem96by64(num: U128, den: u64): UQuoRem64 {
    var x := Rsl32(num).lo;
    if x >= den then
      UQuoRem64(OVERFLOW, den)
    else if x < B32 then
      DivRem64(num.lo, den)
    else
      var y, u, v := num.lo % B32, den / B32, den % B32;
      var qr := FirstEstimate(x, u);
      AddContributions(qr.quo % B32, qr.rem % B32, y, MainTerm(qr.quo % B32, v), den)
  }

  /** Add the contribution of the main term and of the low part, each followed by at most one correction. */
  function AddContributions(q: u32, r: u32, y: u32, main: u64, den: u64): UQuoRem64
    requires den > 0
  {
    var qr := DivRem64(main, den);
    var quotient0 := (q + qr.quo % B32) % B32;
    var rest := r * B32 + y;
    var remainder1 := if rest >= den then rest - den else rest;
    var quotient1 := if rest >= den then (quotient0 + 1) % B32 else quotient0;
    var sum := Wrap64(remainder1 + qr.rem);
    if sum >= den || sum < qr.rem then
      UQuoRem64((quotient1 + 1) % B32, Wrap64(sum - den))
    else
      UQuoRem64(quotient1, sum)
  }

  /** The inputs on which the cast of the low word goes wrong; a caller can test this. */
  predicate LowWordMisread(num: U128, den: u64) {
    B64 <= num.Value() && 1 <= den % B32 <= B31
  }

  lemma AddContributionsSum(q: u32, r: u32, y: u32, main: u64, den: u64) returns (quotient: int)
    requires den > B32 && r * B32 + y < 2 * den
    ensures var res := AddContributions(q, r, y, main, den);
            && res.rem < den
            && res.quo == quotient % B32
            && quotient * den + res.rem == q * den + main + (r * B32 + y)
  {
    hide DivRem64, Wrap64;
    DivRem64Splits(main, den);
    var qr := DivRem64(main, den);
    var c := Corrections(r * B32 + y, qr.rem, den);
    WrappedCount(q, qr.quo);
    quotient := q + qr.quo + c;
    Regroup(q, qr.quo, c, den);
  }

  lemma Regroup(q: int, m: int, c: int, den: int)
    ensures (q + m + c) * den == q * den + m * den + c * den
  {
  }

  /** Both corrections together leave a reduced remainder, and the wrapped sum still shows when the second is due. */
  lemma Corrections(rest: u64, t: u64, den: u64) returns (c: int)
    requires den > B32 && rest < 2 * den && t < den
    ensures var rem1 := if rest >= den then rest - den else rest;
            var sum := Wrap64(rem1 + t);
            var again := sum >= den || sum < t;
            && c == (if rest >= den then 1 else 0) + (if again then 1 else 0)
            && 0 <= rest + t - c * den < den
            && rest + t - c * den == if again then Wrap64(sum - den) else sum
  {
    var rem1 := if rest >= den then rest - den else rest;
    Wrap64Cases(rem1 + t);
    var sum := Wrap64(rem1 + t);
    Wrap64Cases(sum - den);
    c := (if rest >= den then 1 else 0) + (if sum >= den || sum < t then 1 else 0);
  }

  lemma WrappedCount(q: int, m: int)
    ensures var w := (q + m % B32) % B32;
            w == (q + m) % B32 && (w + 1) % B32 == (q + m + 1) % B32 && ((w + 1) % B32 + 1) % B32 == (q + m + 2) % B32
  {
    ModAdd(m, q, B32);
    ModAdd(q + m, 1, B32);
    ModAdd(q + m + 1, 1, B32);
  }

  /** The estimate is the same division whether or not u + 1 wraps, and never too large. */
  lemma Estimate(x: u64, y: u32, den: u64) returns (q: u32, r: u32)
    requires B32 <= x < den
    ensures FirstEstimate(x, den / B32) == UQuoRem64(q, r)
    ensures 1 <= q && r * B32 + y < 2 * den
    ensures x * B32 + y == q * den + q * (B32 - den % B32) + (r * B32 + y)
  {
    var u := den / B32;
    q, r := EstimateParts(x, u);
    Spread(x, den, den % B32, u + 1, q, r);
  }

  lemma EstimateParts(x: u64, u: u32) returns (q: u32, r: u32)
    requires B32 <= x < (u + 1) * B32
    ensures FirstEstimate(x, u) == UQuoRem64(q, r)
    ensures 1 <= q && r <= u && x == q * (u + 1) + r
  {
    hide DivRem64;
    if u + 1 == B32 {
      q, r := WholeTurnEstimate(x);
    } else {
      DivRem64Splits(x, u + 1);
      q, r := EstimateBounds(x, u + 1, DivRem64(x, u + 1).quo, DivRem64(x, u + 1).rem);
    }
  }

  lemma WholeTurnEstimate(x: u64) returns (q: u32, r: u32)
    requires B32 <= x
    ensures x / B32 == q && x % B32 == r && 1 <= q && x == q * B32 + r
  {
    q, r := x / B32, x % B32;
  }

  lemma EstimateBounds(x: u64, u1: int, q: int, r: int) returns (q': u32, r': u32)
    requires 0 < u1 <= B32 <= x < u1 * B32
    requires x == q * u1 + r && 0 <= r < u1
    ensures q' == q == q % B32 && r' == r == r % B32 && 1 <= q
  {
    if q >= B32 { MulMonotone(B32, q, u1); }
    if q <= 0 { MulMonotone(q, 0, u1); }
    q', r' := q, r;
  }

  lemma Spread(x: int, den: int, v: int, u1: int, q: int, r: int)
    requires x == q * u1 + r && den == (u1 - 1) * B32 + v
    ensures x * B32 == q * den + q * (B32 - v) + r * B32
  {
    assert q * den + q * (B32 - v) == q * (den + (B32 - v)) == q * (u1 * B32);
  }

  lemma MainTermExact(q: u32, v: u32)
    requires v == 0 || v > B31
    ensures MainTerm(q, v) == q * (B32 - v)
  {
    if v != 0 {
      ProductBound(q, B32 - v, B32);
      DivModUnique(q * (B32 - v), B64, 0, q * (B32 - v));
    }
  }

  lemma MainTermMisread(q: u32, v: u32)
    requires 1 <= v <= B31 && q >= 1
    ensures MainTerm(q, v) == q * (B32 - v) + (B32 - q) * B32
  {
    ProductBound(q, v, B32);
    assert q * v >= 1 by { MulMonotone(1, q, v); }
    assert q * (B64 - v) == (q - 1) * B64 + (B64 - q * v);
    DivModUnique(q * (B64 - v), B64, q - 1, B64 - q * v);
    assert q * (B32 - v) == q * B32 - q * v;
  }

  lemma SplitNumerator(num: U128)
    requires num.Value() < B32 * B64
    ensures num.Value() == Rsl32(num).lo * B32 + num.lo % B32
    ensures Rsl32(num).lo < B32 ==> num.hi == 0
  {
    hide Rsl32;
    var r := Rsl32(num);
    assert r.Value() < B64;
    assert r.hi == 0;
    assert num.Value() % B32 == num.lo % B32;
  }

  /** The marker comes back exactly when the quotient does not fit in 32 bits (or there is no quotient). */
  lemma OverflowMarker(num: U128, den: u64)
    requires num.Value() < B32 * B64
    ensures num.Value() >= den * B32 <==> DivRem96by64(num, den).rem == den
    ensures DivRem96by64(num, den).rem == den ==> DivRem96by64(num, den).quo == OVERFLOW
  {
    hide AddContributions, MainTerm, FirstEstimate, DivRem64, Rsl32, U128.Value;
    SplitNumerator(num);
    var x := Rsl32(num).lo;
    if x < den { NoMarker(num, den); }
  }

  /** The two branches that divide. */
  lemma NarrowBranch(num: U128, den: u64)
    requires Rsl32(num).lo < den && Rsl32(num).lo < B32
    ensures DivRem96by64(num, den) == DivRem64(num.lo, den)
  {
    hide AddContributions, MainTerm, FirstEstimate, DivRem64, Rsl32;
  }

  lemma WideBranch(num: U128, den: u64, q: u32, r: u32)
    requires B32 <= Rsl32(num).lo < den && FirstEstimate(Rsl32(num).lo, den / B32) == UQuoRem64(q, r)
    ensures DivRem96by64(num, den) == AddContributions(q, r, num.lo % B32, MainTerm(q, den % B32), den)
  {
    hide AddContributions, MainTerm, FirstEstimate, DivRem64, Rsl32;
    assert q % B32 == q && r % B32 == r;
  }

  lemma NoMarker(num: U128, den: u64)
    requires num.Value() < B32 * B64 && Rsl32(num).lo < den
    ensures DivRem96by64(num, den).rem < den
  {
    hide AddContributions, MainTerm, FirstEstimate, DivRem64, Rsl32, U128.Value, DivRem96by64;
    var x := Rsl32(num).lo;
    if x < B32 {
      NarrowBranch(num, den);
      DivRem64Splits(num.lo, den);
    } else {
      var q, r := Estimate(x, num.lo % B32, den);
      WideBranch(num, den, q, r);
      var quotient := AddContributionsSum(q, r, num.lo % B32, MainTerm(q, den % B32), den);
    }
  }

  /** When a quotient fits, it and the remainder are right if and only if the low word of `den` is not misread. */
  lemma DivRem96by64Exact(num: U128, den: u64, quo: u32, rem: u64)
    requires num.Value() == quo * den + rem && rem < den
    ensures !LowWordMisread(num, den) <==> DivRem96by64(num, den) == UQuoRem64(quo, rem)
  {
    hide AddContributions, MainTerm, FirstEstimate, DivRem64, Rsl32, U128.Value, DivRem96by64;
    TopBelowDenominator(num.Value(), den, quo, rem);
    SplitNumerator(num);
    var x, y := Rsl32(num).lo, num.lo % B32;
    if x >= B32 {
      var q, r := Estimate(x, y, den);
      WideBranch(num, den, q, r);
      ContributionsExactly(x * B32 + y, q, r, y, den, quo, rem);
    } else {
      NarrowBranch(num, den);
      assert num.Value() == num.lo by { LowWordOnly(num); }
      DivRem64Unique(num.lo, den, quo, rem);
    }
  }

  /** Such inputs: 2^64 divided by 2^32 + 1. */
  lemma SomeLowWordIsMisread()
    ensures var num, den := U128(0, 1), B32 + 1;
            && LowWordMisread(num, den) && num.Value() == (B32 - 1) * den + 1
            && DivRem96by64(num, den) != UQuoRem64(B32 - 1, 1)
  {
    hide DivRem96by64;
    DivRem96by64Exact(U128(0, 1), B32 + 1, B32 - 1, 1);
  }

  lemma LowWordOnly(num: U128)
    requires num.hi == 0
    ensures num.Value() == num.lo
  {
  }

  lemma TopBelowDenominator(n: int, den: u64, quo: u32, rem: u64)
    requires n == quo * den + rem && rem < den
    ensures n < den * B32 && n < B32 * B64
  {
    MulMonotone(quo, B32 - 1, den);
  }

  lemma ContributionsExactly(n: int, q: u32, r: u32, y: u32, den: u64, quo: u32, rem: u64)
    requires den > B32 && r * B32 + y < 2 * den && rem < den && q >= 1
    requires n == quo * den + rem
    requires n == q * den + q * (B32 - den % B32) + (r * B32 + y)
    ensures !(1 <= den % B32 <= B31) <==>
            AddContributions(q, r, y, MainTerm(q, den % B32), den) == UQuoRem64(quo, rem)
  {
    hide AddContributions, MainTerm;
    var v := den % B32;
    var main := MainTerm(q, v);
    var quotient := AddContributionsSum(q, r, y, main, den);
    var res := AddContributions(q, r, y, main, den);
    if v == 0 || v > B31 {
      MainTermExact(q, v);
      SameQuotient(quotient, res.rem, quo, rem, den);
    } else {
      MainTermMisread(q, v);
      if res.rem == rem { ExcessIsNotWholeTurns(quotient, quo, den, q); }
    }
  }

  lemma SameQuotient(q1: int, r1: int, q2: int, r2: int, d: int)
    requires 0 <= r1 < d && 0 <= r2 < d && q1 * d + r1 == q2 * d + r2
    ensures q1 == q2 && r1 == r2
  {
    DivModUnique(q1 * d + r1, d, q1, r1);
    DivModUnique(q1 * d + r1, d, q2, r2);
  }

  /** A quotient that is off by whole turns of 2^32 would be off by too much. */
  lemma ExcessIsNotWholeTurns(quotient: int, quo: int, den: u64, q: u32)
    requires den > B32 && q >= 1
    requires quotient * den == quo * den + (B32 - q) * B32
    ensures quo != quotient % B32
  {
    if quo == quotient % B32 {
      var j := quotient / B32;
      assert j * den == B32 - q by {
        assert quotient * den == j * den * B32 + quo * den by {
          assert quotient == j * B32 + quo;
        }
      }
      if j >= 1 { MulMonotone(1, j, den); }
      if j <= 0 { MulMonotone(j, 0, den); }
    }
  }
}
