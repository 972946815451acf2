/** Printing Q64.64 numbers in decimal. */
module DecimalText {
  import opened Arithmetic
  import opened WideInt
  import opened FixedPoint
  import opened HighPrecision

  const MAX_PLACES: nat := 20

  // ---------------------------------------------------------------- digit strings

  function Pow10(n: nat): (p: int)
    ensures p >= 1
  {
    if n == 0 then 1 else 10 * Pow10(n - 1)
  }

  function DigitChar(d: int): char
    requires 0 <= d <= 9
  {
    (48 + d) as char
  }

  /** What the readers make of a character: its distance from '0', whatever it is. */
  function CharDigit(c: char): int {
    c as int - 48
  }

  predicate IsDigit(c: char) {
    0 <= CharDigit(c) <= 9
  }

  predicate AllDigits(s: string) {
    forall i :: 0 <= i < |s| ==> IsDigit(s[i])
  }

  /** The last `len` decimal digits of `n`, with leading zeros. */
  function DigitsOf(n: nat, len: nat): (s: string)
    ensures |s| == len && AllDigits(s)
  {
    if len == 0 then "" else DigitsOf(n / 10, len - 1) + [DigitChar(n % 10)]
  }

  function Width(n: nat): (w: nat)
    ensures w >= 1
  {
    if n < 10 then 1 else 1 + Width(n / 10)
  }

  function Decimal(n: nat): (s: string)
    ensures AllDigits(s)
  {
    DigitsOf(n, Width(n))
  }

  /** Digits with a decimal point before the last `places` of them. */
  function PointForm(digits: string, places: nat): string
    requires places <= |digits|
  {
    digits[..|digits| - places] + "." + digits[|digits| - places..]
  }

  lemma {:induction false} DigitsOfConcat(a: nat, wa: nat, b: nat, wb: nat)
    requires b < Pow10(wb)
    ensures DigitsOf(a * Pow10(wb) + b, wa + wb) == DigitsOf(a, wa) + DigitsOf(b, wb)
  {
    if wb == 0 {
      assert a * Pow10(0) + b == a;
    } else {
      DigitsOfConcat(a, wa, b / 10, wb - 1);
      var n := a * Pow10(wb) + b;
      SplitLastDigit(a, b, wb);
      assert DigitsOf(n, wa + wb) == DigitsOf(n / 10, wa + (wb - 1)) + [DigitChar(n % 10)];
    }
  }

  lemma SplitLastDigit(a: nat, b: nat, wb: nat)
    requires wb > 0
    ensures var n := a * Pow10(wb) + b;
            n >= 0 && n / 10 == a * Pow10(wb - 1) + b / 10 && n % 10 == b % 10
  {
    var k := a * Pow10(wb - 1);
    MulMonotone(0, a, Pow10(wb - 1));
    assert a * Pow10(wb) == 10 * k;
  }

  lemma {:induction false} WidthUnique(n: nat, w: nat)
    requires w >= 1 && n < Pow10(w) && (w == 1 || Pow10(w - 1) <= n)
    ensures Width(n) == w
  {
    if w > 1 {
      if w > 2 { assert Pow10(w - 1) == 10 * Pow10(w - 2); }
      assert Pow10(w) == 10 * Pow10(w - 1);
      assert Pow10(1) == 10;
      Pow10Monotone(1, w - 1);
      WidthUnique(n / 10, w - 1);
    }
  }

  lemma {:induction false} WidthBounds(n: nat)
    ensures n < Pow10(Width(n)) && (Width(n) == 1 || Pow10(Width(n) - 1) <= n)
  {
    if n >= 10 {
      WidthBounds(n / 10);
    }
  }

  lemma {:induction false} Pow10Monotone(m: nat, n: nat)
    requires m <= n
    ensures Pow10(m) <= Pow10(n)
  {
    if m < n { Pow10Monotone(m, n - 1); }
  }

  // ---------------------------------------------------------------- what is printed

  /** Number of digits after the point: at least one; without a fixed precision, until the fraction is used up. */
  function Places(fraction: u64, floatfield: bool, precision: nat): (n: nat)
    ensures n >= 1
  {
    PlacesFrom(fraction, floatfield, precision, 1)
  }

  function PlacesFrom(fraction: u64, floatfield: bool, precision: nat, n: nat): nat {
    if floatfield then if precision > 1 then precision else 1 else DefaultPlaces(fraction, n)
  }

  function DefaultPlaces(fraction: u64, n: nat): (p: nat)
    ensures n <= p && (n <= MAX_PLACES ==> p <= MAX_PLACES)
    ensures p < MAX_PLACES ==> fraction * Pow10(p) % B64 == 0
    decreases MAX_PLACES - n
  {
    if n >= MAX_PLACES || fraction * Pow10(n) % B64 == 0 then n else DefaultPlaces(fraction, n + 1)
  }

  /** The printed digits round up on the first unprinted digit alone, and on 5 only after an odd digit. */
  predicate RoundsUp(lastDigit: int, next: int) {
    next > 5 || (next == 5 && lastDigit % 2 == 1)
  }

  /** The printed digits, as one integer. */
  function Rounded(magnitude: nat, places: nat): nat {
    var x := magnitude * Pow10(places);
    var q := x / B64;
    if RoundsUp(q % 10, x % B64 * 10 / B64) then q + 1 else q
  }

  /** All the digits of `n`, and at least one more than the places after the point. */
  function PaddedWidth(n: nat, places: nat): (w: nat)
    ensures w > places
  {
    if Width(n) > places then Width(n) else places + 1
  }

  function Render(n: nat, places: nat): string {
    PointForm(DigitsOf(n, PaddedWidth(n, places)), places)
  }

  /** The text of a number. The least number prints a second minus sign, its magnitude having no positive form. */
  function Text(value: U128, floatfield: bool, precision: nat): string {
    var m := Magnitude(value);
    var n := Places(m.lo, floatfield, precision);
    (if value.Negative() then "-" else "+") + (if m.Negative() then "-" else "") + Render(Rounded(m.Value(), n), n)
  }

  // ---------------------------------------------------------------- carrying in a digit string

  /** Add one in the last place; nines turn to zeros and a carry out of the front adds a digit. */
  function Increment(s: string): (r: string)
    requires AllDigits(s)
  {
    if s == "" then "1"
    else if CharDigit(s[|s| - 1]) == 9 then Increment(s[..|s| - 1]) + "0"
    else s[..|s| - 1] + [DigitChar(CharDigit(s[|s| - 1]) + 1)]
  }

  lemma IncrementLast(s: string, d: int)
    requires AllDigits(s) && 0 <= d <= 9
    ensures Increment(s + [DigitChar(d)]) == if d == 9 then Increment(s) + "0" else s + [DigitChar(d + 1)]
  {
    assert (s + [DigitChar(d)])[..|s|] == s;
  }

  lemma {:induction false} IncrementDigits(n: nat, w: nat)
    requires n < Pow10(w)
    ensures Increment(DigitsOf(n, w)) == DigitsOf(n + 1, if n + 1 < Pow10(w) then w else w + 1)
  {
    hide Increment;
    if w == 0 {
      IncrementEmpty();
    } else {
      IncrementLast(DigitsOf(n / 10, w - 1), n % 10);
      if n % 10 == 9 {
        IncrementDigits(n / 10, w - 1);
        assert (n + 1) / 10 == n / 10 + 1 && (n + 1) % 10 == 0;
      } else {
        assert (n + 1) / 10 == n / 10 && (n + 1) % 10 == n % 10 + 1;
      }
    }
  }

  lemma IncrementEmpty()
    ensures Increment("") == "1" && DigitsOf(1, 1) == "1" && DigitsOf(0, 0) == ""
  {
    assert DigitsOf(1, 1) == DigitsOf(0, 0) + [DigitChar(1)];
  }

  function Zeros(k: nat): (s: string)
    ensures |s| == k && AllDigits(s)
  {
    seq(k, _ => '0')
  }

  lemma PointUpdate(s: string, places: nat, j: nat, c: char)
    requires places <= |s| && j < |s|
    ensures var i := if j < |s| - places then j else j + 1;
            && i < |PointForm(s, places)| && PointForm(s, places)[i] == s[j]
            && PointForm(s, places)[i := c] == PointForm(s[j := c], places)
  {
  }

  /** The last `k` digits of `d` were nines and are zeros now; the carry still has to go into the front before them. */
  ghost predicate Carrying(d: string, places: nat, digits: string, front: string, k: nat) {
    && AllDigits(d) && AllDigits(front) && places <= |d| == |front| + k
    && Increment(d) == Increment(front) + Zeros(k)
    && digits == PointForm(front + Zeros(k), places)
  }

  /** Where the walk stands: right behind the front, the point being on the one side or the other. */
  predicate At(front: nat, places: nat, k: nat, i: nat) {
    || i == front + (if k < places then 1 else 0)
    || (k == places && i == front + 1)
  }

  lemma StartCarry(d: string, places: nat)
    requires AllDigits(d) && places <= |d|
    ensures Carrying(d, places, PointForm(d, places), d, 0)
  {
    hide Increment, PointForm, AllDigits;
    assert Zeros(0) == "";
    assert d + Zeros(0) == d;
    assert Increment(d) + Zeros(0) == Increment(d);
  }

  lemma SkipPoint(d: string, places: nat, digits: string, front: string, k: nat, i: nat)
    requires Carrying(d, places, digits, front, k) && At(|front|, places, k, i) && 0 < i <= |digits|
    ensures digits[i - 1] == '.' ==> At(|front|, places, k, i - 1)
    ensures digits[i - 1] != '.' ==> front != [] && i - 1 == (if k < places then |front| else |front| - 1)
  {
    hide Increment, PointForm, Zeros;
    var s := front + Zeros(k);
    PointFormLength(s, places);
    if k == places && i == |front| + 1 {
      PointIsADot(s, places);
    } else {
      assert front != [];
      PointUpdate(s, places, |front| - 1, '.');
      assert s[|front| - 1] == front[|front| - 1];
      DigitIsNoPoint(front, |front| - 1);
    }
  }

  lemma DigitIsNoPoint(s: string, j: nat)
    requires AllDigits(s) && j < |s|
    ensures s[j] != '.' && IsDigit(s[j])
  {
  }

  lemma PointIsADot(s: string, places: nat)
    requires places <= |s|
    ensures PointForm(s, places)[|s| - places] == '.'
  {
  }

  /** The carry goes into the last digit of the front: a nine turns to zero and hands it on. */
  lemma CarryIntoDigit(d: string, places: nat, digits: string, front: string, k: nat)
    requires Carrying(d, places, digits, front, k) && front != []
    ensures var i := if k < places then |front| else |front| - 1;
            && i < |digits| && IsDigit(digits[i])
            && (digits[i] == '9' ==> Carrying(d, places, digits[i := '0'], front[..|front| - 1], k + 1))
            && (digits[i] != '9' ==>
                  && places <= |Increment(d)|
                  && digits[i := DigitChar(CharDigit(digits[i]) + 1)] == PointForm(Increment(d), places))
  {
    hide Increment, PointForm, Carrying, AllDigits, Zeros;
    var j := |front| - 1;
    var f, c := front[..j], front[j];
    CarryingParts(d, places, digits, front, k, f, c);
    PointUpdate(f + [c] + Zeros(k), places, j, '0');
    if c == '9' {
      CarryPastNine(d, places, f, k);
    } else {
      PointUpdate(f + [c] + Zeros(k), places, j, DigitChar(CharDigit(c) + 1));
      CarryStops(d, f, c, k);
    }
  }

  lemma CarryingParts(d: string, places: nat, digits: string, front: string, k: nat, f: string, c: char)
    requires Carrying(d, places, digits, front, k) && front != []
    requires f == front[..|front| - 1] && c == front[|front| - 1]
    ensures AllDigits(d) && AllDigits(f) && IsDigit(c) && places <= |d| == |f| + 1 + k
    ensures |f + [c] + Zeros(k)| == |d| && (f + [c] + Zeros(k))[|f|] == c
    ensures digits == PointForm(f + [c] + Zeros(k), places)
    ensures Increment(d) == (if c == '9' then Increment(f) + "0" else f + [DigitChar(CharDigit(c) + 1)]) + Zeros(k)
  {
    hide Increment, PointForm, Zeros;
    assert front == f + [c];
    DigitIsNoPoint(front, |front| - 1);
    assert [DigitChar(CharDigit(c))] == [c];
    AllDigitsPrefix(front, |front| - 1);
    IncrementLast(f, CharDigit(c));
  }

  lemma AllDigitsPrefix(d: string, j: nat)
    requires AllDigits(d) && j <= |d|
    ensures AllDigits(d[..j])
  {
  }

  lemma CarryPastNine(d: string, places: nat, f: string, k: nat)
    requires AllDigits(d) && AllDigits(f) && places <= |d| == |f| + 1 + k
    requires Increment(d) == Increment(f) + "0" + Zeros(k)
    ensures Carrying(d, places, PointForm((f + ['9'] + Zeros(k))[|f| := '0'], places), f, k + 1)
  {
    hide Increment, PointForm, AllDigits, Zeros;
    ZeroInFront(k);
    assert (f + ['9'] + Zeros(k))[|f| := '0'] == f + Zeros(k + 1) by { ReplaceLast(f, '9', '0', Zeros(k)); }
    assert Increment(f) + "0" + Zeros(k) == Increment(f) + Zeros(k + 1);
  }

  lemma CarryStops(d: string, f: string, c: char, k: nat)
    requires AllDigits(d) && IsDigit(c) && c != '9'
    requires Increment(d) == f + [DigitChar(CharDigit(c) + 1)] + Zeros(k) && |d| == |f| + 1 + k
    ensures (f + [c] + Zeros(k))[|f| := DigitChar(CharDigit(c) + 1)] == Increment(d) && |Increment(d)| == |d|
  {
    hide Increment, AllDigits, Zeros;
    ReplaceLast(f, c, DigitChar(CharDigit(c) + 1), Zeros(k));
  }

  lemma ReplaceLast(front: string, c: char, up: char, back: string)
    ensures (front + [c] + back)[|front| := up] == front + [up] + back
  {
  }

  lemma ZeroInFront(k: nat)
    ensures Zeros(k + 1) == "0" + Zeros(k)
  {
  }

  lemma CarryOut(d: string, places: nat, digits: string, k: nat)
    requires Carrying(d, places, digits, [], k)
    ensures places <= |Increment(d)| && "1" + digits == PointForm(Increment(d), places)
  {
    hide Increment, AllDigits, Zeros;
    IncrementEmpty();
    assert [] + Zeros(k) == Zeros(k);
    OneBefore(Zeros(k), places);
  }

  lemma OneBefore(s: string, places: nat)
    requires places <= |s|
    ensures "1" + PointForm(s, places) == PointForm("1" + s, places)
  {
    var n := |s| - places;
    assert ("1" + s)[..n + 1] == "1" + s[..n];
    assert ("1" + s)[n + 1..] == s[n..];
  }

  /** Walk backwards with the carry, skipping the decimal point. */
  method PropagateCarry(text: string, ghost d: string, ghost places: nat) returns (digits: string)
    requires AllDigits(d) && places <= |d| && text == PointForm(d, places)
    ensures places <= |Increment(d)| && digits == PointForm(Increment(d), places)
  {
    hide Increment, Carrying, PointForm;
    digits := text;
    var carry := true;
    var i := |digits|;
    ghost var front, k: nat := d, 0;
    StartCarry(d, places);
    PointFormLength(d, places);
    while i > 0 && carry
      invariant 0 <= i <= |digits|
      invariant carry ==> Carrying(d, places, digits, front, k) && At(|front|, places, k, i)
      invariant !carry ==> places <= |Increment(d)| && digits == PointForm(Increment(d), places)
    {
      SkipPoint(d, places, digits, front, k, i);
      i := i - 1;
      if digits[i] == '.' {
        continue;
      }
      CarryIntoDigit(d, places, digits, front, k);
      assert digits[i := (digits[i] as int + 1) as char][i := '0'] == digits[i := '0'];
      digits := digits[i := (digits[i] as int + 1) as char];
      if digits[i] <= '9' {
        carry := false;
      } else {
        digits := digits[i := '0'];
        front, k := front[..|front| - 1], k + 1;
      }
    }
    if carry {
      assert front == [];
      CarryOut(d, places, digits, k);
      digits := "1" + digits;
    }
  }

  lemma PointFormLength(s: string, places: nat)
    requires places <= |s|
    ensures |PointForm(s, places)| == |s| + 1
  {
  }

  // ---------------------------------------------------------------- printing

  function SignedDecimal(n: int): string {
    if n < 0 then "-" + Decimal(-n) else Decimal(n)
  }

  /** After `places` digits: `q` is what they spell and `rem` what is left of the fraction. */
  ghost predicate Expanded(fraction: int, places: nat, q: nat, rem: int) {
    fraction * Pow10(places) == q * B64 + rem && 0 <= rem < B64 && q < Pow10(places)
  }

  lemma ExpandStep(fraction: int, places: nat, q: nat, rem: int)
    requires Expanded(fraction, places, q, rem)
    ensures 0 <= 10 * rem / B64 <= 9
    ensures Expanded(fraction, places + 1, 10 * q + 10 * rem / B64, 10 * rem % B64)
  {
    assert fraction * Pow10(places + 1) == 10 * (fraction * Pow10(places));
  }

  lemma ExpandedParts(fraction: int, places: nat, q: nat, rem: int)
    requires Expanded(fraction, places, q, rem)
    ensures fraction * Pow10(places) / B64 == q && fraction * Pow10(places) % B64 == rem
  {
    DivModUnique(fraction * Pow10(places), B64, q, rem);
  }

  lemma TimesTen(x: int)
    requires 0 <= x < B64
    ensures TruncDiv(x * (10 * B64), B64) == 10 * x && Representable(10 * x)
  {
    assert x * (10 * B64) == 10 * x * B64;
  }

  lemma RoundedParts(magnitude: nat, places: nat, q: nat, rem: int)
    requires places >= 1 && Expanded(magnitude % B64, places, q, rem)
    ensures var n := magnitude / B64 * Pow10(places) + q;
            Rounded(magnitude, places) == if RoundsUp(q % 10, 10 * rem / B64) then n + 1 else n
  {
    var h, f := magnitude / B64, magnitude % B64;
    var n := h * Pow10(places) + q;
    ScaleParts(h, f, Pow10(places), q, rem);
    DivModUnique((h * B64 + f) * Pow10(places), B64, n, rem);
    LastDigit(h, places, q);
  }

  lemma ScaleParts(h: int, f: int, p: int, q: int, rem: int)
    requires f * p == q * B64 + rem
    ensures (h * B64 + f) * p == (h * p + q) * B64 + rem
  {
    assert (h * B64 + f) * p == h * p * B64 + f * p;
  }

  lemma LastDigit(h: nat, places: nat, q: nat)
    requires places >= 1
    ensures h * Pow10(places) + q >= 0 && (h * Pow10(places) + q) % 10 == q % 10
  {
    var k := h * Pow10(places - 1);
    MulMonotone(0, h, Pow10(places - 1));
    assert h * Pow10(places) == 10 * k;
  }

  lemma {:induction false} Pow10Add(m: nat, n: nat)
    ensures Pow10(m + n) == Pow10(m) * Pow10(n)
  {
    if m > 0 {
      Pow10Add(m - 1, n);
      assert m - 1 + n == m + n - 1;
      TenTimes(Pow10(m - 1), Pow10(n));
    }
  }

  lemma TenTimes(x: int, y: int)
    ensures 10 * (x * y) == 10 * x * y
  {
  }

  lemma WidthAtMost(n: nat, w: nat)
    requires n < Pow10(w) && w >= 1
    ensures Width(n) <= w
  {
    WidthBounds(n);
    if Width(n) > w { Pow10Monotone(w, Width(n) - 1); }
  }

  /** Integer digits followed by `places` fraction digits are the padded digits of the joined number. */
  lemma PaddedDigits(h: nat, q: nat, places: nat)
    requires places >= 1 && q < Pow10(places)
    ensures var n := h * Pow10(places) + q;
            n >= 0 && Decimal(h) + DigitsOf(q, places) == DigitsOf(n, PaddedWidth(n, places))
  {
    hide DigitsOf, Width;
    DigitsOfConcat(h, Width(h), q, places);
    if h == 0 {
      WidthUnique(0, 1);
      WidthAtMost(q, places);
    } else {
      JoinedWidth(h, q, places);
    }
  }

  lemma JoinedWidth(h: nat, q: nat, places: nat)
    requires h > 0 && q < Pow10(places)
    ensures var n := h * Pow10(places) + q;
            n >= 0 && Width(n) == Width(h) + places
  {
    hide Width, Pow10;
    WidthBounds(h);
    var w, p := Width(h), Pow10(places);
    Pow10Add(w, places);
    Pow10Add(w - 1, places);
    MulMonotone(h, Pow10(w) - 1, p);
    assert (Pow10(w) - 1) * p == Pow10(w) * p - p;
    assert Pow10(0) == 1 by { Pow10Zero(); }
    MulMonotone(Pow10(w - 1), h, p);
    WidthUnique(h * p + q, w + places);
  }

  lemma Pow10Step(n: nat)
    ensures Pow10(n + 1) == 10 * Pow10(n)
  {
  }

  lemma Pow10Zero()
    ensures Pow10(0) == 1
  {
  }

  lemma PaddedIncrement(n: nat, places: nat)
    ensures Increment(DigitsOf(n, PaddedWidth(n, places))) == DigitsOf(n + 1, PaddedWidth(n + 1, places))
  {
    hide DigitsOf, Increment, Width, Pow10;
    var w := PaddedWidth(n, places);
    WidthBounds(n);
    Pow10Monotone(Width(n), w);
    IncrementDigits(n, w);
    if n + 1 == Pow10(w) {
      Pow10Step(w);
      WidthUnique(n + 1, w + 1);
    } else if w > places + 1 {
      WidthUnique(n + 1, w);
    } else {
      WidthAtMost(n + 1, w);
    }
  }

  lemma StartExpansion(fraction: u64, front: string)
    ensures Expanded(fraction, 0, 0, fraction)
    ensures front + "." == front + "." + DigitsOf(0, 0)
  {
    assert Pow10(0) == 1;
  }

  /** The integer part of ten times the fraction is the next digit; subtracting it leaves the fraction. */
  lemma DigitTaken(w: U128, rem: int)
    requires 0 <= rem < B64 && w.Signed() == 10 * rem
    ensures w.lo == 10 * rem % B64 && w.hi == 10 * rem / B64 <= 9
    ensures Sub(w, U128(0, w.hi)) == U128(w.lo, 0)
  {
    hide Sub;
    assert w.Value() == 10 * rem;
    var d := Sub(w, U128(0, w.hi));
    SumFits(w.lo, 0);
    ValueInjective(d, U128(w.lo, 0));
  }

  lemma DigitAppended(front: string, q: nat, digit: int, places: nat)
    requires 0 <= digit <= 9
    ensures front + "." + DigitsOf(q, places) + [DigitChar(digit)]
            == front + "." + DigitsOf(10 * q + digit, places + 1)
    ensures (10 * q + digit) % 10 == digit
  {
    assert (10 * q + digit) / 10 == q && (10 * q + digit) % 10 == digit;
    assert front + "." + DigitsOf(q, places) + [DigitChar(digit)]
        == front + "." + (DigitsOf(q, places) + [DigitChar(digit)]);
  }

  lemma PlacesStep(fraction: u64, floatfield: bool, precision: nat, places: nat)
    requires places >= 1 && places <= PlacesFrom(fraction, floatfield, precision, places)
    ensures var more := if floatfield then places < precision
                        else fraction * Pow10(places) % B64 != 0 && places < MAX_PLACES;
            var target := PlacesFrom(fraction, floatfield, precision, places);
            && (more ==> places < target == PlacesFrom(fraction, floatfield, precision, places + 1))
            && (!more ==> places == target)
  {
  }

  /** The text before rounding, and after it when a carry is due, for a magnitude with a positive form. */
  lemma FinishedText(absVal: U128, q: nat, rem: int, places: nat)
    requires !absVal.Negative() && places >= 1 && Expanded(absVal.lo, places, q, rem)
    ensures var digits := SignedDecimal(AsSigned64(absVal.hi)) + "." + DigitsOf(q, places);
            var d := Decimal(absVal.hi) + DigitsOf(q, places);
            && AllDigits(d) && places <= |d| && digits == PointForm(d, places)
            && if RoundsUp(q % 10, 10 * rem / B64)
               then places <= |Increment(d)|
                    && PointForm(Increment(d), places) == Render(Rounded(absVal.Value(), places), places)
               else digits == Render(Rounded(absVal.Value(), places), places)
  {
    hide DigitsOf, Expanded, Rounded, Increment, PaddedWidth, Decimal, Pow10, U128.Value, PointForm;
    var h := absVal.hi;
    PointFormConcat(Decimal(h), DigitsOf(q, places));
    ValueLimbs(absVal);
    RoundedParts(absVal.Value(), places, q, rem);
    ExpandedBound(absVal.lo, places, q, rem);
    PaddedDigits(h, q, places);
    PaddedIncrement(h * Pow10(places) + q, places);
  }

  lemma ValueLimbs(a: U128)
    ensures a.Value() / B64 == a.hi && a.Value() % B64 == a.lo
  {
  }

  lemma PointFormConcat(front: string, back: string)
    ensures front + "." + back == PointForm(front + back, |back|)
  {
  }

  /** The least number has no fraction, so nothing is rounded behind its second minus sign. */
  lemma FinishedLeast(absVal: U128, q: nat, rem: int, places: nat)
    requires absVal.Negative() && absVal.Value() <= B127 && places >= 1 && Expanded(absVal.lo, places, q, rem)
    ensures !RoundsUp(q % 10, 10 * rem / B64)
    ensures SignedDecimal(AsSigned64(absVal.hi)) + "." + DigitsOf(q, places)
            == "-" + Render(Rounded(absVal.Value(), places), places)
  {
    hide DigitsOf, Expanded, Rounded, PaddedWidth, Decimal;
    assert absVal == U128(0, B63);
    ExpandedZero(places, q, rem);
    PointFormConcat(Decimal(B63), DigitsOf(q, places));
    ValueLimbs(absVal);
    RoundedParts(absVal.Value(), places, q, rem);
    ExpandedBound(absVal.lo, places, q, rem);
    PaddedDigits(B63, q, places);
    assert "-" + Decimal(B63) + "." + DigitsOf(q, places) == "-" + (Decimal(B63) + "." + DigitsOf(q, places));
  }

  lemma ExpandedBound(fraction: int, places: nat, q: nat, rem: int)
    requires Expanded(fraction, places, q, rem)
    ensures q < Pow10(places)
  {
  }

  lemma ExpandedZero(places: nat, q: nat, rem: int)
    requires Expanded(0, places, q, rem)
    ensures q == 0 && rem == 0
  {
  }

  /** The statement `low *= 10` on a fraction. */
  method TimesTenInPlace(low: Int64x64)
    requires low.v.hi == 0
    modifies low
    ensures var x := 10 * old(low.v.lo);
            && low.v.lo == x % B64 && low.v.hi == x / B64 <= 9
            && Sub(low.v, U128(0, low.v.hi)) == U128(x % B64, 0)
  {
    hide TruncDiv, Sub;
    ghost var rem := low.v.lo;
    TimesTen(rem);
    var ten := new Int64x64(10, 0);
    var ok := low.Mul(ten);
    DigitTaken(low.v, rem);
  }

  /** Printing, digit by digit, then rounding in the printed string. */
  method Print(value: U128, floatfield: bool, precision: nat) returns (text: string)
    ensures text == Text(value, floatfield, precision)
  {
    hide Magnitude, Render, Rounded, PlacesFrom, Expanded, Pow10, DigitsOf, Decimal, SignedDecimal, PointForm,
         Increment, Sub, U128.Value, AllDigits;
    var negative := value.Negative();
    var absVal := Magnitude(value);
    var hi := AsSigned64(absVal.hi);
    ghost var front := SignedDecimal(hi);
    ghost var target := Places(absVal.lo, floatfield, precision);
    var digits := SignedDecimal(hi) + ".";
    var low := new Int64x64(0, absVal.lo);
    var places: nat := 0;
    var more := true;
    var digit: int := 0;
    ghost var q: nat := 0;
    StartExpansion(absVal.lo, front);
    while more
      invariant fresh(low) && low.v.hi == 0 && Expanded(absVal.lo, places, q, low.v.lo)
      invariant digits == front + "." + DigitsOf(q, places)
      invariant places > 0 ==> digit == q % 10
      invariant more ==> places < target == PlacesFrom(absVal.lo, floatfield, precision, places + 1)
      invariant !more ==> places == target
      decreases target - places
    {
      ExpandStep(absVal.lo, places, q, low.v.lo);
      TimesTenInPlace(low);
      digit := AsSigned64(low.v.hi);
      low.v := Sub(low.v, U128(0, low.v.hi));
      DigitAppended(front, q, digit, places);
      digits := digits + [DigitChar(digit)];
      q := 10 * q + digit;
      places := places + 1;
      ExpandedParts(absVal.lo, places, q, low.v.lo);
      PlacesStep(absVal.lo, floatfield, precision, places);
      more := if floatfield then places < precision else low.v.lo != 0 && places < MAX_PLACES;
    }
    if absVal.Negative() {
      FinishedLeast(absVal, q, low.v.lo, places);
    } else {
      FinishedText(absVal, q, low.v.lo, places);
    }
    TimesTenInPlace(low);
    var nextDigit := AsSigned64(low.v.hi);
    if nextDigit > 5 || (nextDigit == 5 && digit % 2 == 1) {
      digits := PropagateCarry(digits, Decimal(absVal.hi) + DigitsOf(q, places), places);
    }
    text := (if negative then "-" else "+") + digits;
    TextParts(value, floatfield, precision, digits);
  }

  lemma TextParts(value: U128, floatfield: bool, precision: nat, digits: string)
    requires var m := Magnitude(value);
             var n := Places(m.lo, floatfield, precision);
             digits == (if m.Negative() then "-" else "") + Render(Rounded(m.Value(), n), n)
    ensures (if value.Negative() then "-" else "+") + digits == Text(value, floatfield, precision)
  {
    hide Places, Rounded, Render, Magnitude;
    var m := Magnitude(value);
    var n := Places(m.lo, floatfield, precision);
    JoinsEither(if value.Negative() then "-" else "+", if m.Negative() then "-" else "",
                Render(Rounded(m.Value(), n), n));
  }

  lemma JoinsEither(a: string, b: string, c: string)
    ensures a + (b + c) == a + b + c
  {
  }
}
