/** Q64.64 fixed-point numbers on two-limb words: a signed 128-bit count of units of 2^-64. */
module FixedPoint {
  import opened Arithmetic
  import opened Wrappers
  import opened WideInt

  const DIGITS: nat := 64

  predicate Representable(x: int) {
    -B127 <= x < B127
  }

  // ---------------------------------------------------------------- unsigned multiplication

  lemma MiddleParts(lo1: u64, hi1: u64, lo2: u64, hi2: u64)
    requires hi1 <= B63 && hi2 <= B63
    ensures 0 <= lo1 * hi2 && 0 <= hi1 * lo2 && lo1 * hi2 + hi1 * lo2 < B128
  {
    assert lo1 * hi2 <= (B64 - 1) * B63 by {
      MulMonotone(lo1, B64 - 1, hi2);
      MulMonotone(hi2, B63, B64 - 1);
    }
    assert hi1 * lo2 <= B63 * (B64 - 1) by {
      MulMonotone(hi1, B63, lo2);
      MulMonotone(lo2, B64 - 1, B63);
    }
  }

  lemma ProductParts(a: U128, b: U128)
    ensures a.Value() * b.Value()
            == a.hi * b.hi * B128 + (a.lo * b.hi + a.hi * b.lo) * B64 + a.lo * b.lo
  {
    assert a.Value() * b.Value() == a.hi * B64 * b.Value() + a.lo * b.Value();
    assert a.hi * b.Value() == a.hi * b.hi * B64 + a.hi * b.lo;
    assert a.lo * b.Value() == a.lo * b.hi * B64 + a.lo * b.lo;
  }

  /** The central 128 bits of hh * 2^128 + mid * 2^64 + ll, assembled from 64-bit pieces with carries. */
  lemma CentralWord(hh: u64, midHi: u64, midLo: u64, llHi: u64, llLo: u64)
    ensures ((llHi + midLo) % B128 + (midHi + hh) % B128 * B64 % B128) % B128
            == (hh * B128 + (midHi * B64 + midLo) * B64 + (llHi * B64 + llLo)) / B64 % B128
  {
    var s, t := llHi + midLo, midHi + hh;
    DivModUnique(s, B128, 0, s);
    DivModUnique(t, B128, 0, t);
    var u := hh * B64 + (midHi * B64 + midLo) + llHi;
    DivModUnique(hh * B128 + (midHi * B64 + midLo) * B64 + (llHi * B64 + llLo), B64, u, llLo);
    ModAdd(t * B64, s, B128);
  }

  /** Sum of the middle partial products; it cannot wrap for magnitudes up to 2^127. */
  function MiddlePart(a: U128, b: U128): (m: U128)
    requires a.Value() <= B127 && b.Value() <= B127
    ensures m.Value() == a.lo * b.hi + a.hi * b.lo
  {
    MiddleParts(a.lo, a.hi, b.lo, b.hi);
    SumFits(a.lo * b.hi, a.hi * b.lo);
    Add(Mul64x64(a.lo, b.hi), Mul64x64(a.hi, b.lo))
  }

  lemma SumFits(x: int, y: int)
    requires 0 <= x + y < B128
    ensures (x + y) % B128 == x + y
  {
  }

  /** The product of two magnitudes in Q64.64, or None where the source aborts on overflow. */
  function Umul(a: U128, b: U128): (r: Option<U128>)
    requires a.Value() <= B127 && b.Value() <= B127
    ensures r.None? <==> a.hi * b.hi >= B64
    ensures r.Some? ==> r.value.Value() == a.Value() * b.Value() / B64 % B128
  {
    var loPart := Mul64x64(a.lo, b.lo);
    var midPart := MiddlePart(a, b);
    var hiPart := Mul64x64(a.hi, b.hi);
    if hiPart.hi != 0 then
      None
    else
      var low := Add(FromU64(loPart.hi), FromU64(midPart.lo));
      var high := Lsl(Add(FromU64(midPart.hi), FromU64(hiPart.lo)), 64);
      ProductParts(a, b);
      UmulValue(a.Value() * b.Value(), hiPart, midPart, loPart);
      Some(Add(low, high))
  }

  lemma UmulValue(p: int, hiPart: U128, midPart: U128, loPart: U128)
    requires hiPart.hi == 0 && p == hiPart.Value() * B128 + midPart.Value() * B64 + loPart.Value()
    ensures Add(Add(FromU64(loPart.hi), FromU64(midPart.lo)),
                Lsl(Add(FromU64(midPart.hi), FromU64(hiPart.lo)), 64)).Value()
            == p / B64 % B128
  {
    hide Add, Lsl, Pow2, U128.Value, FromU64;
    Pow2Limbs();
    LimbValues(hiPart, midPart, loPart);
    var s := Add(FromU64(loPart.hi), FromU64(midPart.lo));
    var t := Add(FromU64(midPart.hi), FromU64(hiPart.lo));
    AssembledWord(hiPart.lo, midPart.hi, midPart.lo, loPart.hi, loPart.lo, p, s.Value(), t.Value(), Lsl(t, 64).Value());
  }

  lemma AssembledWord(hh: u64, midHi: u64, midLo: u64, llHi: u64, llLo: u64, p: int, s: int, t: int, u: int)
    requires p == hh * B128 + (midHi * B64 + midLo) * B64 + (llHi * B64 + llLo)
    requires s == (llHi + midLo) % B128 && t == (midHi + hh) % B128 && u == t * B64 % B128
    ensures (s + u) % B128 == p / B64 % B128
  {
    CentralWord(hh, midHi, midLo, llHi, llLo);
  }

  lemma LimbValues(hi: U128, mid: U128, lo: U128)
    ensures hi.hi == 0 ==> hi.Value() == hi.lo
    ensures mid.Value() == mid.hi * B64 + mid.lo && lo.Value() == lo.hi * B64 + lo.lo
    ensures FromU64(lo.hi).Value() == lo.hi && FromU64(mid.lo).Value() == mid.lo
    ensures FromU64(mid.hi).Value() == mid.hi && FromU64(hi.lo).Value() == hi.lo
  {
  }

  // ---------------------------------------------------------------- unsigned division

  /**
   * State of the digit loop after `t` fraction digits: `quo` units of `b` are accounted for, and what is left of
   * `a` is `rem` in the scale of the shortened denominator `den`, from which `j` zero bits have been cast off.
   */
  ghost predicate Accounted(a: int, b: int, den: int, rem: int, quo: int, j: nat, t: nat) {
    && b == den * Pow2(j)
    && a * Pow2(t) == quo * b + rem * Pow2(j)
  }

  lemma StartAccount(a: int, b: int, quo: int, rem: int)
    requires a == quo * b + rem
    ensures Accounted(a, b, b, rem, quo, 0, 0)
  {
  }

  lemma CastOff(a: int, b: int, den: int, rem: int, quo: int, j: nat, t: nat)
    requires Accounted(a, b, den, rem, quo, j, t) && den % 2 == 0
    ensures Accounted(a, b, den / 2, rem, 2 * quo, j + 1, t + 1)
  {
    var h, p := den / 2, Pow2(j);
    assert den * p == h * (2 * p);
    assert a * (2 * Pow2(t)) == 2 * (a * Pow2(t));
    assert 2 * (quo * b + rem * p) == 2 * quo * b + rem * (2 * p);
  }

  lemma ScaleUp(a: int, b: int, den: int, rem: int, quo: int, j: nat, t: nat)
    requires Accounted(a, b, den, rem, quo, j, t)
    ensures Accounted(a, b, den, 2 * rem, 2 * quo, j, t + 1)
  {
    var p := Pow2(j);
    assert a * (2 * Pow2(t)) == 2 * (a * Pow2(t));
    assert 2 * (quo * b + rem * p) == 2 * quo * b + 2 * rem * p;
  }

  lemma TakeQuotient(a: int, b: int, den: int, q: int, r: int, quo: int, j: nat, t: nat)
    requires Accounted(a, b, den, q * den + r, quo, j, t)
    ensures Accounted(a, b, den, r, quo + q, j, t)
  {
    var p := Pow2(j);
    assert (q * den + r) * p == q * (den * p) + r * p;
    assert (quo + q) * b == quo * b + q * b;
  }

  /** What the fraction digits are digits of: the quotient in units of 2^-64, rounded down. */
  function ScaledQuotient(n: int, d: int): int
    requires d > 0
  {
    n * B64 / d
  }

  /** All 64 digits are out, or nothing is left to divide: the accounted units are the whole quotient. */
  lemma QuotientComplete(a: int, b: int, den: int, rem: int, quo: int, j: nat, t: nat)
    requires den > 0 && 0 <= rem < den && t <= DIGITS && (t == DIGITS || rem == 0)
    requires Accounted(a, b, den, rem, quo, j, t)
    ensures b > 0 && ScaledQuotient(a, b) == quo * Pow2(DIGITS - t)
  {
    ScalingSplits(a, t);
    CompleteQuotient(a * Pow2(t), a * B64, b, den, rem, quo, Pow2(j), Pow2(DIGITS - t));
  }

  lemma ScalingSplits(a: int, t: nat)
    requires t <= DIGITS
    ensures a * B64 == a * Pow2(t) * Pow2(DIGITS - t)
  {
    hide Pow2;
    Pow2Limbs();
    Pow2Add(t, DIGITS - t);
    MulAssociative(a, Pow2(t), Pow2(DIGITS - t));
  }

  lemma MulAssociative(x: int, y: int, z: int)
    ensures x * (y * z) == x * y * z
  {
  }

  lemma CompleteQuotient(x: int, n: int, b: int, den: int, rem: int, quo: int, p: int, s: int)
    requires den > 0 && p > 0 && b == den * p && 0 <= rem < den && (s == 1 || rem == 0)
    requires x == quo * b + rem * p && n == x * s
    ensures b > 0 && n / b == quo * s
  {
    MulMonotone(1, den, p);
    MulMonotone(rem, den - 1, p);
    MulMonotone(0, rem, p);
    assert (den - 1) * p == b - p;
    assert n == quo * s * b + rem * p by {
      if s != 1 { assert quo * b * s == quo * s * b; }
    }
    DivModUnique(n, b, quo * s, rem * p);
  }

  lemma AppendDigits(result: U128, quo: int, shift: nat, digits: U128)
    requires shift < 128 && result.Value() == quo % B128
    ensures Add(Lsl(result, shift), digits).Value() == (quo * Pow2(shift) + digits.Value()) % B128
    ensures Lsl(result, shift).Value() == quo * Pow2(shift) % B128
  {
    hide Add, Lsl, U128.Value;
    ModMul(quo, Pow2(shift), B128);
    ModAdd(quo * Pow2(shift), digits.Value(), B128);
  }

  /** What every round of the digit loop keeps; `done` are the quotient bits already in the result. */
  ghost predicate Round(n: int, d: int, den: U128, rem: U128, done: int, quo: int, j: nat, t: nat, shift: nat) {
    && Accounted(n, d, den.Value(), rem.Value(), quo, j, t)
    && quo == done * Pow2(shift)
    && rem.Value() < Pow2(shift) * den.Value()
    && 0 < den.Value() <= B127
  }

  lemma StartRounds(n: int, d: int, den: U128, qr: UQuoRem128)
    requires QuoRem(n, d, qr) && den.Value() == d <= B127
    ensures Round(n, d, den, qr.rem, qr.quo.Value(), qr.quo.Value(), 0, 0, 0)
  {
    hide Accounted;
    StartAccount(n, d, qr.quo.Value(), qr.rem.Value());
  }

  lemma ShortenDenominator(n: int, d: int, den: U128, rem: U128, done: int, quo: int, j: nat, t: nat, shift: nat)
    requires Round(n, d, den, rem, done, quo, j, t, shift) && den.lo % 2 == 0
    ensures Round(n, d, Rsl1(den), rem, done, 2 * quo, j + 1, t + 1, shift + 1)
  {
    hide Rsl1, Accounted;
    assert den.Value() % 2 == den.lo % 2;
    CastOff(n, d, den.Value(), rem.Value(), quo, j, t);
    CastOffBound(rem.Value(), den.Value(), shift);
  }

  lemma ShiftRemainder(n: int, d: int, den: U128, rem: U128, done: int, quo: int, j: nat, t: nat, shift: nat)
    requires Round(n, d, den, rem, done, quo, j, t, shift) && !rem.Negative()
    ensures Round(n, d, den, Lsl(rem, 1), done, 2 * quo, j, t + 1, shift + 1)
  {
    hide Lsl, Accounted;
    ScaleUp(n, d, den.Value(), rem.Value(), quo, j, t);
    DoubleWord(rem);
  }

  /** A remainder with its top bit set is not below any denominator of a magnitude, so only a zero bit is cast off. */
  lemma NoBitDiscarded(n: int, d: int, den: U128, rem: U128, done: int, quo: int, j: nat, t: nat, shift: nat)
    requires Round(n, d, den, rem, done, quo, j, t, shift) && rem.Negative()
    requires den.lo % 2 == 0 || Lt(rem, den)
    ensures den.lo % 2 == 0 && den.Value() == 2 * Rsl1(den).Value()
  {
    hide Rsl1, Accounted;
    assert den.Value() % 2 == den.lo % 2;
  }

  /** Between rounds the remainder is below the denominator, so one more digit can be shifted in without loss. */
  lemma RoundProgresses(n: int, d: int, den: U128, rem: U128, done: int, quo: int, j: nat, t: nat)
    requires Round(n, d, den, rem, done, quo, j, t, 0)
    ensures rem.Value() < den.Value() && quo == done && !rem.Negative() && Lsl(rem, 1).Value() == 2 * rem.Value()
  {
    hide Lsl, Accounted;
    DoubleWord(rem);
  }

  lemma FinishRound(n: int, d: int, den: U128, rem: U128, done: int, quo: int, j: nat, t: nat, shift: nat,
                    result: U128, qr: UQuoRem128)
    requires Round(n, d, den, rem, done, quo, j, t, shift) && shift < 128 && result.Value() == done % B128
    requires QuoRem(rem.Value(), den.Value(), qr)
    ensures var next := quo + qr.quo.Value();
            && Round(n, d, den, qr.rem, next, next, j, t, 0)
            && Add(Lsl(result, shift), qr.quo).Value() == next % B128
  {
    hide Lsl, Add, Accounted;
    TakeQuotient(n, d, den.Value(), qr.quo.Value(), qr.rem.Value(), quo, j, t);
    AppendDigits(result, done, shift, qr.quo);
  }

  /** Long division that skips the zero bits of remainder and denominator. */
  method Udiv(a: U128, b: U128) returns (result: U128)
    requires 0 < b.Value() <= B127
    ensures result.Value() == ScaledQuotient(a.Value(), b.Value()) % B128
  {
    hide ScaledQuotient, QuoRem, Round, Accounted, Add, Lsl, Rsl1, Lt, U128.Value, Pow2;
    ghost var n, d := a.Value(), b.Value();
    var den := b;
    var qr := DivRem(a, b);
    result := qr.quo;
    var rem := qr.rem;
    var digis: nat := 0;
    var shift: nat := 0;
    ghost var done := result.Value();
    ghost var quo, j: nat := done, 0;
    SumFits(done, 0);
    StartRounds(n, d, den, qr);

    while shift < DIGITS && den.lo % 2 == 0
      invariant shift <= DIGITS
      invariant Round(n, d, den, rem, done, quo, j, shift, shift)
    {
      ShortenDenominator(n, d, den, rem, done, quo, j, shift, shift);
      quo, j := 2 * quo, j + 1;
      shift := shift + 1;
      den := Rsl1(den);
    }

    while digis < DIGITS && rem != ZERO
      invariant digis + shift <= DIGITS
      invariant Round(n, d, den, rem, done, quo, j, digis + shift, shift)
      invariant result.Value() == done % B128
      invariant digis > 0 ==> shift == 0
      decreases DIGITS - digis
    {
      if shift == 0 { RoundProgresses(n, d, den, rem, done, quo, j, digis); }
      while digis + shift < DIGITS && !rem.Negative()
        invariant digis + shift <= DIGITS
        invariant Round(n, d, den, rem, done, quo, j, digis + shift, shift)
        invariant shift == 0 ==> !rem.Negative()
      {
        ShiftRemainder(n, d, den, rem, done, quo, j, digis + shift, shift);
        quo := 2 * quo;
        shift := shift + 1;
        rem := Lsl(rem, 1);
      }
      while digis + shift < DIGITS && (den.lo % 2 == 0 || Lt(rem, den))
        invariant 0 < shift && digis + shift <= DIGITS
        invariant digis + shift < DIGITS ==> rem.Negative()
        invariant Round(n, d, den, rem, done, quo, j, digis + shift, shift)
      {
        NoBitDiscarded(n, d, den, rem, done, quo, j, digis + shift, shift);
        ShortenDenominator(n, d, den, rem, done, quo, j, digis + shift, shift);
        quo, j := 2 * quo, j + 1;
        shift := shift + 1;
        den := Rsl1(den);
      }
      DenominatorPositive(n, d, den, rem, done, quo, j, digis + shift, shift);
      qr := DivRem(rem, den);
      FinishRound(n, d, den, rem, done, quo, j, digis + shift, shift, result, qr);
      result := Lsl(result, shift);
      result := Add(result, qr.quo);
      rem := qr.rem;
      done := quo + qr.quo.Value();
      quo := done;
      digis := digis + shift;
      shift := 0;
    }
    Pow2Small();
    RoundsComplete(n, d, den, rem, done, quo, j, digis + shift, shift);
    if digis < DIGITS {
      AppendDigits(result, done, DIGITS - digis, ZERO);
      shift := DIGITS - digis;
      result := Lsl(result, shift);
    }
  }

  lemma DenominatorPositive(n: int, d: int, den: U128, rem: U128, done: int, quo: int, j: nat, t: nat, shift: nat)
    requires Round(n, d, den, rem, done, quo, j, t, shift)
    ensures den.Value() > 0
  {
  }

  lemma RoundsComplete(n: int, d: int, den: U128, rem: U128, done: int, quo: int, j: nat, t: nat, shift: nat)
    requires Round(n, d, den, rem, done, quo, j, t, shift)
    requires t <= DIGITS && (rem == ZERO || (t == DIGITS && shift == 0))
    ensures shift <= t ==> d > 0 && ScaledQuotient(n, d) == done * Pow2(DIGITS - (t - shift))
  {
    hide Accounted;
    if shift <= t {
      QuotientComplete(n, d, den.Value(), rem.Value(), quo, j, t);
      Pow2Add(shift, DIGITS - t);
      MulAssociative(done, Pow2(shift), Pow2(DIGITS - t));
    }
  }

  lemma DoubleWord(rem: U128)
    requires !rem.Negative()
    ensures Lsl(rem, 1).Value() == 2 * rem.Value()
  {
    hide Lsl;
    Pow2Small();
    SumFits(2 * rem.Value(), 0);
  }

  lemma CastOffBound(rem: int, den: int, shift: nat)
    requires den % 2 == 0 && rem < Pow2(shift) * den
    ensures rem < Pow2(shift + 1) * (den / 2)
  {
    assert Pow2(shift + 1) * (den / 2) == Pow2(shift) * (2 * (den / 2));
  }
}
