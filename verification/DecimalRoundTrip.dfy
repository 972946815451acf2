/** Printing a Q64.64 number and reading its text back. */
module DecimalRoundTrip {
  import opened Arithmetic
  import opened Wrappers
  import opened WideInt
  import opened FixedPoint
  import opened DecimalText
  import opened DecimalReading

  // ---------------------------------------------------------------- how exact the text is

  lemma ExpandFraction(fraction: u64, places: nat) returns (q: nat, rem: nat)
    ensures Expanded(fraction, places, q, rem)
    ensures q * B64 + rem == fraction * Pow10(places) && rem < B64
    ensures q * B64 <= Pow10(places) * B64 - Pow10(places)
  {
    var p := Pow10(places);
    var x := fraction * p;
    MulMonotone(0, fraction, p);
    MulMonotone(fraction, B64 - 1, p);
    assert (B64 - 1) * p == B64 * p - p;
    q, rem := x / B64, x % B64;
  }

  /** The stream formats that print enough digits to tell any two numbers apart. */
  predicate FullFormat(floatfield: bool, precision: nat) {
    floatfield ==> precision >= MAX_PLACES
  }

  const POW10_OF_20: int := 100_000_000_000_000_000_000

  /** The rounded fraction keeps to its places and is within 0.6 of its last place of the truth, or exact. */
  lemma RoundedFraction(fraction: u64, floatfield: bool, precision: nat)
    returns (places: nat, q: nat, rem: nat, m: nat)
    requires FullFormat(floatfield, precision)
    ensures places == Places(fraction, floatfield, precision) && places >= 1
    ensures Expanded(fraction, places, q, rem) && m == if RoundsUp(q % 10, 10 * rem / B64) then q + 1 else q
    ensures m < Pow10(places)
    ensures 10 * Abs(m * B64 - fraction * Pow10(places)) <= 6 * B64
    ensures Pow10(places) >= POW10_OF_20 || m * B64 == fraction * Pow10(places)
  {
    hide RoundsUp, Pow10, Expanded, PlacesFrom;
    places := Places(fraction, floatfield, precision);
    q, rem := ExpandFraction(fraction, places);
    ExpandedParts(fraction, places, q, rem);
    var up := RoundsUp(q % 10, 10 * rem / B64);
    m := if up then q + 1 else q;
    if up {
      UpMeansHalf(q % 10, 10 * rem / B64);
    } else {
      DownMeansBelow(q % 10, 10 * rem / B64);
    }
    EnoughPlaces(fraction, floatfield, precision);
  }

  lemma EnoughPlaces(fraction: u64, floatfield: bool, precision: nat)
    requires FullFormat(floatfield, precision)
    ensures var places := Places(fraction, floatfield, precision);
            Pow10(places) >= POW10_OF_20 || fraction * Pow10(places) % B64 == 0
  {
    hide Pow10;
    var places := Places(fraction, floatfield, precision);
    Pow10Of20();
    if places >= MAX_PLACES { Pow10Monotone(MAX_PLACES, places); }
  }

  lemma RoundedWhole(h: nat, fraction: u64, places: nat, q: nat, rem: nat)
    requires places >= 1 && Expanded(fraction, places, q, rem)
    ensures Rounded(h * B64 + fraction, places)
            == h * Pow10(places) + if RoundsUp(q % 10, 10 * rem / B64) then q + 1 else q
  {
    hide Expanded, Rounded, RoundsUp, Pow10;
    var x := h * B64 + fraction;
    DivModUnique(x, B64, h, fraction);
    RoundedParts(x, places, q, rem);
  }

  lemma UpMeansHalf(last: int, next: int)
    requires RoundsUp(last, next)
    ensures next >= 5
  {
  }

  lemma DownMeansBelow(last: int, next: int)
    requires !RoundsUp(last, next)
    ensures next <= 5
  {
  }

  /** Printing error and reading error together stay below one unit, so the fraction read is the fraction printed. */
  lemma FractionSurvives(h: nat, fraction: u64, floatfield: bool, precision: nat) returns (m: nat)
    requires FullFormat(floatfield, precision)
    ensures var places := Places(fraction, floatfield, precision);
            && Rounded(h * B64 + fraction, places) == h * Pow10(places) + m
            && m < Pow10(places) && ReadLo(DigitsOf(m, places)) == fraction
  {
    hide Rounded, RoundsUp, Expanded, ReadLo, DigitsOf, Pow10, Places, ReadError;
    var places, q, rem, m0 := RoundedFraction(fraction, floatfield, precision);
    m := m0;
    RoundedWhole(h, fraction, places, q, rem);
    UncutReadError(m, places);
    ErrorsBelowOne(ReadLo(DigitsOf(m, places)), fraction, m, Pow10(places));
  }

  lemma ErrorsBelowOne(read: int, fraction: int, m: int, p: int)
    requires p > 0 && ReadError(read, m, p) && 10 * Abs(m * B64 - fraction * p) <= 6 * B64
    requires p >= POW10_OF_20 || m * B64 == fraction * p
    ensures read == fraction
  {
    var d := read - fraction;
    assert 9 * (read * p - m * B64) + 9 * (m * B64 - fraction * p) == 9 * (d * p) by {
      assert d * p == read * p - fraction * p;
    }
    assert -9 * p < 9 * (d * p) < 9 * p;
    if d >= 1 { MulMonotone(1, d, p); }
    if d <= -1 { MulMonotone(d, -1, p); }
  }

  /** How far any printed text, in either format, is from the number. */
  lemma PrintedWithin(magnitude: nat, places: nat)
    requires places >= 1
    ensures 10 * Abs(Rounded(magnitude, places) * B64 - magnitude * Pow10(places)) <= 6 * B64
  {
    hide RoundsUp, Pow10;
    var x := magnitude * Pow10(places);
    MulMonotone(0, magnitude, Pow10(places));
    var next := x % B64 * 10 / B64;
    if RoundsUp(x / B64 % 10, next) {
      UpMeansHalf(x / B64 % 10, next);
    } else {
      DownMeansBelow(x / B64 % 10, next);
    }
  }

  /** The branch that keeps the last digit although more than half a unit is cut off: a 5 after an even digit. */
  predicate HalfKept(magnitude: nat, places: nat) {
    var x := magnitude * Pow10(places);
    var q, rem := x / B64, x % B64;
    rem * 10 / B64 == 5 && q % 10 % 2 == 0 && 2 * rem > B64
  }

  /** The printed text is a nearest one in every case but that. */
  lemma NearestUnlessHalfKept(magnitude: nat, places: nat)
    ensures 2 * Abs(Rounded(magnitude, places) * B64 - magnitude * Pow10(places)) <= B64
        <==> !HalfKept(magnitude, places)
  {
    hide Pow10;
    MulMonotone(0, magnitude, Pow10(places));
    RoundingError(magnitude * Pow10(places));
  }

  /** 15/256 printed with one place: 0.058... becomes 0.0, more than half a place away. */
  lemma SomeHalfIsKept()
    ensures var m := B64 / 256 * 15;
            HalfKept(m, 1) && 2 * Abs(Rounded(m, 1) * B64 - m * Pow10(1)) > B64
  {
    assert Pow10(1) == 10;
    NearestUnlessHalfKept(B64 / 256 * 15, 1);
  }

  lemma RoundingError(x: nat)
    ensures var q, rem := x / B64, x % B64;
            var next := rem * 10 / B64;
            2 * Abs((if RoundsUp(q % 10, next) then q + 1 else q) * B64 - x) <= B64
            <==> !(next == 5 && q % 10 % 2 == 0 && 2 * rem > B64)
  {
    var q, rem := x / B64, x % B64;
    assert x == q * B64 + rem;
    assert (q + 1) * B64 == q * B64 + B64;
  }

  // ---------------------------------------------------------------- the round trip

  lemma DigitsTakeDrop(h: nat, m: nat, places: nat, w: nat)
    requires places < w && m < Pow10(places) && h * Pow10(places) + m < Pow10(w)
    ensures h * Pow10(places) + m >= 0 && h < Pow10(w - places)
    ensures PointForm(DigitsOf(h * Pow10(places) + m, w), places) == DigitsOf(h, w - places) + "." + DigitsOf(m, places)
  {
    hide DigitsOf, Pow10;
    var p := Pow10(places);
    Pow10Add(w - places, places);
    if h >= Pow10(w - places) { MulMonotone(Pow10(w - places), h, p); }
    MulMonotone(0, h, p);
    DigitsOfConcat(h, w - places, m, places);
    PointFormConcat(DigitsOf(h, w - places), DigitsOf(m, places));
  }

  lemma PaddedWidthHolds(n: nat, places: nat)
    ensures n < Pow10(PaddedWidth(n, places))
  {
    WidthBounds(n);
    Pow10Monotone(Width(n), PaddedWidth(n, places));
  }

  lemma {:induction false} NumberOfDigits(n: nat, w: nat)
    requires n < Pow10(w)
    ensures Number(DigitsOf(n, w)) == n
  {
    if w > 0 {
      NumberOfDigits(n / 10, w - 1);
      assert DigitsOf(n, w)[..w - 1] == DigitsOf(n / 10, w - 1);
    }
  }

  lemma {:induction false} LeadingDigit(n: nat, w: nat)
    requires w >= 1 && Pow10(w - 1) <= n < Pow10(w)
    ensures DigitsOf(n, w)[0] != '0'
  {
    if w > 1 {
      Pow10Step(w - 1);
      Pow10Step(w - 2);
      LeadingDigit(n / 10, w - 1);
      assert DigitsOf(n, w)[0] == DigitsOf(n / 10, w - 1)[0];
    }
  }

  /** A rendered number: its places behind the point, and in front of it no zero too many. */
  lemma RenderedForm(n: nat, places: nat) returns (ints: string, fraction: string)
    ensures Render(n, places) == ints + "." + fraction && AllDigits(ints) && AllDigits(fraction)
    ensures ints != "" && (|ints| > 1 ==> ints[0] != '0') && |fraction| == places
    ensures Number(ints) * Pow10(places) + Number(fraction) == n
  {
    hide DigitsOf, Pow10, PaddedWidth, PointForm, Number;
    var w, p := PaddedWidth(n, places), Pow10(places);
    var h, f := n / p, n % p;
    PaddedWidthHolds(n, places);
    assert n == h * p + f;
    DigitsTakeDrop(h, f, places, w);
    ints, fraction := DigitsOf(h, w - places), DigitsOf(f, places);
    NumberOfDigits(h, w - places);
    NumberOfDigits(f, places);
    if w - places > 1 {
      WideFront(n, places, w, h, f);
      LeadingDigit(h, w - places);
    }
  }

  lemma WideFront(n: nat, places: nat, w: nat, h: nat, f: nat)
    requires w == PaddedWidth(n, places) && w - places > 1 && n == h * Pow10(places) + f && f < Pow10(places)
    ensures h >= Pow10(w - places - 1)
  {
    hide Pow10, Width;
    var p := Pow10(places);
    WidthBounds(n);
    Pow10Add(w - places - 1, places);
    if h < Pow10(w - places - 1) { MulMonotone(h + 1, Pow10(w - places - 1), p); }
  }

  lemma {:induction false} DefaultPlacesLeast(fraction: u64, n: nat)
    requires n <= MAX_PLACES
    ensures forall k :: n <= k < DefaultPlaces(fraction, n) ==> fraction * Pow10(k) % B64 != 0
    decreases MAX_PLACES - n
  {
    hide Pow10;
    if n < MAX_PLACES && fraction * Pow10(n) % B64 != 0 { DefaultPlacesLeast(fraction, n + 1); }
  }

  /** In fixed format as many places as asked for, one at least; else as few as are exact, but never more than 20. */
  ghost predicate PlacesAsAsked(fraction: u64, floatfield: bool, precision: nat, places: nat) {
    && places >= 1 && (floatfield ==> places == if precision == 0 then 1 else precision)
    && (!floatfield ==>
         && places <= 20 && (places < 20 ==> fraction * Pow10(places) % B64 == 0)
         && forall k :: 1 <= k < places ==> fraction * Pow10(k) % B64 != 0)
  }

  /**
   * What any number but the least one looks like in any format: a sign, its integer part without needless zeros, and
   * the places asked for; the number spelled is a nearest one unless a half too many is kept, and of two equally near
   * ones it is the even one.
   */
  lemma PrintedForm(value: U128, floatfield: bool, precision: nat) returns (ints: string, fraction: string)
    requires value != LEAST
    ensures Text(value, floatfield, precision) == (if value.Signed() < 0 then "-" else "+") + ints + "." + fraction
    ensures AllDigits(ints) && AllDigits(fraction) && ints != "" && (|ints| > 1 ==> ints[0] != '0')
    ensures PlacesAsAsked(Magnitude(value).lo, floatfield, precision, |fraction|)
    ensures var spelled := Number(ints) * Pow10(|fraction|) + Number(fraction);
            var distance := Abs(spelled * B64 - Abs(value.Signed()) * Pow10(|fraction|));
            && (2 * distance <= B64 <==> !HalfKept(Abs(value.Signed()), |fraction|)) && 10 * distance <= 6 * B64
            && (2 * distance == B64 ==> spelled % 2 == 0)
  {
    hide Number, Pow10, AllDigits, Rounded, Render, Magnitude, HalfKept;
    var m := Magnitude(value);
    OnlyLeastHasNoMagnitude(value);
    MagnitudeIsAbs(value);
    var places := Places(m.lo, floatfield, precision);
    ints, fraction := RenderedForm(Rounded(m.Value(), places), places);
    if !floatfield { DefaultPlacesLeast(m.lo, 1); }
    PrintedWithin(m.Value(), places);
    NearestUnlessHalfKept(m.Value(), places);
    TieToEven(m.Value(), places);
    var sign := if value.Negative() then "-" else "+";
    assert sign + "" + (ints + "." + fraction) == sign + ints + "." + fraction;
  }

  lemma TieToEven(magnitude: nat, places: nat)
    ensures 2 * Abs(Rounded(magnitude, places) * B64 - magnitude * Pow10(places)) == B64
        ==> Rounded(magnitude, places) % 2 == 0
  {
    hide Pow10;
    MulMonotone(0, magnitude, Pow10(places));
    TieOf(magnitude * Pow10(places));
  }

  lemma TieOf(x: nat)
    ensures var q, rem := x / B64, x % B64;
            var r := if RoundsUp(q % 10, rem * 10 / B64) then q + 1 else q;
            2 * Abs(r * B64 - x) == B64 ==> r % 2 == 0
  {
    hide RoundsUp;
    var q, rem := x / B64, x % B64;
    HalfRemainder(q, rem);
    TieParts(q, rem, x, RoundsUp(q % 10, rem * 10 / B64));
  }

  lemma TieParts(q: nat, rem: int, x: int, up: bool)
    requires x == q * B64 + rem && (2 * rem == B64 ==> (up <==> q % 2 == 1))
    ensures var r := if up then q + 1 else q;
            2 * Abs(r * B64 - x) == B64 && 0 <= rem < B64 ==> r % 2 == 0
  {
  }

  lemma HalfRemainder(q: nat, rem: int)
    ensures 2 * rem == B64 ==> (RoundsUp(q % 10, rem * 10 / B64) <==> q % 2 == 1)
  {
    assert q % 10 % 2 == q % 2;
  }

  lemma MagnitudeIsAbs(value: U128)
    ensures Magnitude(value).Value() == Abs(value.Signed())
    ensures value.Negative() <==> value.Signed() < 0
  {
  }

  /** What is printed in a full format: the integer part in decimal, and fraction digits that read back exactly. */
  lemma TextInFullFormat(value: U128, floatfield: bool, precision: nat) returns (ints: string, fraction: string)
    requires FullFormat(floatfield, precision)
    ensures AllDigits(ints) && AllDigits(fraction)
    ensures var m := Magnitude(value);
            && Text(value, floatfield, precision)
               == (if value.Negative() then "-" else "+") + (if m.Negative() then "-" else "") + (ints + "." + fraction)
            && ReadHi(ints) == m.hi && ReadLo(fraction) == m.lo
  {
    hide DigitsOf, Pow10, Rounded, PaddedWidth, PointForm, Magnitude, U128.Value, ReadLo, ReadHi, PlacesFrom;
    var m := Magnitude(value);
    var places := Places(m.lo, floatfield, precision);
    assert m.Value() == m.hi * B64 + m.lo by { ValueParts(m); }
    var f := FractionSurvives(m.hi, m.lo, floatfield, precision);
    ints, fraction := RenderedParts(m.hi, f, places, Rounded(m.Value(), places));
  }

  lemma RenderedParts(h: u64, f: nat, places: nat, n: nat) returns (ints: string, fraction: string)
    requires f < Pow10(places) && n == h * Pow10(places) + f
    ensures Render(n, places) == ints + "." + fraction
    ensures AllDigits(ints) && ReadHi(ints) == h && fraction == DigitsOf(f, places)
  {
    hide DigitsOf, Pow10, PaddedWidth, PointForm, ReadHi, Number;
    var w := PaddedWidth(n, places);
    PaddedWidthHolds(n, places);
    DigitsTakeDrop(h, f, places, w);
    NumberOfDigits(h, w - places);
    ints, fraction := DigitsOf(h, w - places), DigitsOf(f, places);
    ReadHiOfDigits(ints);
  }

  lemma ValueParts(a: U128)
    ensures a.Value() == a.hi * B64 + a.lo
  {
  }

  const LEAST := U128(0, B63)

  lemma OnlyLeastHasNoMagnitude(value: U128)
    ensures Magnitude(value).Negative() <==> value == LEAST
    ensures Signed(value.Negative(), Magnitude(value).lo, Magnitude(value).hi) == value
  {
    hide Negate;
    var m := Magnitude(value);
    if value.Negative() {
      assert m.Value() == B128 - value.Value();
      assert Negate(m).Value() == value.Value() by {
        DivModUnique(-m.Value(), B128, -1, value.Value());
      }
      ValueInjective(Negate(m), value);
    } else {
      ValueInjective(m, value);
    }
  }

  /** In the default format, and in fixed format with 20 places or more, every number but the least one is read back. */
  lemma RoundTrip(value: U128, floatfield: bool, precision: nat)
    requires FullFormat(floatfield, precision)
    ensures ParseText(Text(value, floatfield, precision)) == Some(value) <==> value != LEAST
  {
    hide ParseText, ReadLo, ReadHi, Signed, Magnitude, Text, AllDigits;
    var ints, fraction := TextInFullFormat(value, floatfield, precision);
    var m := Magnitude(value);
    OnlyLeastHasNoMagnitude(value);
    if value != LEAST {
      var sign := if value.Negative() then "-" else "+";
      var n := Numeral("", sign, ints, true, fraction);
      ParseNumeral(n);
      assert sign + "" + (ints + "." + fraction) == "" + (sign + ints + ("." + fraction));
    } else {
      LeastIsMisread(floatfield, precision);
    }
  }

  // ---------------------------------------------------------------- the least number

  lemma ReadHiSnoc(s: string, c: char)
    ensures ReadHi(s + [c]) == Wrap64(Wrap64(ReadHi(s) * 10) + CharDigit(c))
  {
    assert (s + [c])[..|s|] == s;
  }

  lemma {:induction false} ReadHiMinus(n: nat, w: nat)
    requires n < Pow10(w)
    ensures ReadHi("-" + DigitsOf(n, w)) == (n - 3 * Pow10(w)) % B64
  {
    hide ReadHi, Wrap64;
    if w == 0 {
      assert "-" + DigitsOf(n, w) == "" + ['-'];
      ReadHiSnoc("", '-');
      ReadHiOfNothing();
      WrapDigit(0, -3);
    } else {
      ReadHiMinus(n / 10, w - 1);
      var front := "-" + DigitsOf(n / 10, w - 1);
      assert "-" + DigitsOf(n, w) == front + [DigitChar(n % 10)];
      ReadHiSnoc(front, DigitChar(n % 10));
      WrapDigit(n / 10 - 3 * Pow10(w - 1), n % 10);
    }
  }

  /** The second minus sign is read as a digit worth minus three. */
  lemma LeastIsMisread(floatfield: bool, precision: nat)
    ensures ParseText(Text(LEAST, floatfield, precision)) != Some(LEAST)
  {
    hide ReadLo, ReadHi, Magnitude, Pow10, DigitsOf, SplitText, Signed, Render, Rounded, PlacesFrom, Text;
    var places := Places(0, floatfield, precision);
    LeastText(floatfield, precision);
    var ints, zeros := DigitsOf(B63, 19), DigitsOf(0, places);
    Pow10Of20();
    ReadHiMinus(B63, 19);
    ZerosRead(places);
    TwoSigns(ints, zeros);
    NegatedMisreading(ReadHi("-" + ints));
  }

  lemma ZerosRead(places: nat)
    ensures ReadLo(DigitsOf(0, places)) == 0
  {
    hide ReadLo, DigitsOf, Pow10;
    UncutReadError(0, places);
    var r, p := ReadLo(DigitsOf(0, places)), Pow10(places);
    if r >= 1 { MulMonotone(1, r, p); }
  }

  lemma LeastText(floatfield: bool, precision: nat)
    ensures var places := Places(0, floatfield, precision);
            Text(LEAST, floatfield, precision) == "-" + "-" + (DigitsOf(B63, 19) + "." + DigitsOf(0, places))
  {
    hide Magnitude, Rounded, DigitsOf, Pow10, PlacesFrom, PointForm, Width;
    var m := Magnitude(LEAST);
    assert m == LEAST by { OnlyLeastHasNoMagnitude(LEAST); ValueInjective(m, LEAST); }
    var places := Places(0, floatfield, precision);
    LeastRounded(places);
    LeastWidth(places);
    DigitsTakeDrop(B63, 0, places, 19 + places);
  }

  lemma LeastRounded(places: nat)
    ensures Rounded(B127, places) == B63 * Pow10(places)
  {
    hide Pow10;
    DivModUnique(B127 * Pow10(places), B64, B63 * Pow10(places), 0);
  }

  lemma LeastWidth(places: nat)
    requires places >= 1
    ensures PaddedWidth(B63 * Pow10(places), places) == 19 + places && B63 * Pow10(places) < Pow10(19 + places)
  {
    hide Pow10, Width;
    Pow10Of20();
    Pow10Add(19, places);
    Pow10Add(18, places);
    MulMonotone(B63, Pow10(19) - 1, Pow10(places));
    MulMonotone(Pow10(18), B63, Pow10(places));
    WidthUnique(B63 * Pow10(places), 19 + places);
  }

  /** A second sign is left in front of the integer digits. */
  lemma TwoSigns(ints: string, fraction: string)
    requires AllDigits(ints) && AllDigits(fraction) && ReadLo(fraction) == 0
    ensures ParseText("-" + "-" + (ints + "." + fraction)) == Some(Signed(true, 0, ReadHi("-" + ints)))
  {
    hide SplitText, ReadLo, ReadHi, Signed, AllDigits;
    var str := "-" + "-" + (ints + "." + fraction);
    SplitTwoSigns(ints, fraction);
    assert str == "-" + ("-" + ints) + "." + fraction;
    assert str[1..2 + |ints|] == "-" + ints;
    assert str[3 + |ints|..] == fraction;
  }

  lemma SplitTwoSigns(ints: string, fraction: string)
    requires AllDigits(ints) && AllDigits(fraction)
    ensures SplitText("-" + "-" + (ints + "." + fraction)) == Split(true, Some(1), Some(2 + |ints|))
  {
    var str := "-" + "-" + (ints + "." + fraction);
    assert str[0] == '-' && str[1] == '-';
    assert FindFrom(str, '-', 0) == Some(0);
    FindUnique(str, '.', 1, 2 + |ints|);
  }

  lemma NegatedMisreading(h: u64)
    requires h == (B63 - 3 * 10_000_000_000_000_000_000) % B64
    ensures Signed(true, 0, h) != LEAST
  {
    hide Negate;
    DivModUnique(-(h * B64), B128, -1, B128 - h * B64);
  }
}
