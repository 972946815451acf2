/** Reading decimal text as a Q64.64 number, and how exactly. */
module DecimalReading {
  import opened Arithmetic
  import opened Wrappers
  import opened WideInt
  import opened FixedPoint
  import opened HighPrecision
  import opened DecimalText

  // ---------------------------------------------------------------- the readers

  /** The integer the digits spell, in 64-bit arithmetic; any character is taken for a digit. */
  function ReadHi(s: string): u64 {
    if s == "" then 0 else Wrap64(Wrap64(ReadHi(s[..|s| - 1]) * 10) + CharDigit(s[|s| - 1]))
  }

  method ReadHiDigits(str: string) returns (retval: u64)
    ensures retval == ReadHi(str)
  {
    retval := 0;
    var i := 0;
    while i < |str|
      invariant 0 <= i <= |str|
      invariant retval == ReadHi(str[..i])
    {
      assert str[..i + 1][..i] == str[..i];
      retval := Wrap64(retval * 10);
      retval := Wrap64(retval + CharDigit(str[i]));
      i := i + 1;
    }
    assert str[..|str|] == str;
  }

  /** The fraction the digits spell, in units of 2^-64, dividing by ten from the right and rounding each time. */
  function ReadLo(s: string): (r: int)
    requires AllDigits(s)
    ensures 0 <= r <= B64
  {
    if s == "" then 0 else (ReadLo(s[1..]) + CharDigit(s[0]) * B64 + 5) / 10
  }

  lemma DivideByTen(x: int)
    requires 0 <= x < B127
    ensures TruncDiv(x * B64, 10 * B64) == x / 10 && Representable(x / 10)
  {
    DivModUnique(x * B64, 10 * B64, x / 10, x % 10 * B64);
  }

  /** None where the source's assertion on the digits fails. */
  method ReadLoDigits(str: string) returns (r: Option<u64>)
    ensures r == if AllDigits(str) then Some(ReadLo(str) % B64) else None
  {
    hide TruncDiv, Add;
    var low := new Int64x64(0, 0);
    var round := new Int64x64(0, 5);
    var ten := new Int64x64(10, 0);
    var i := |str|;
    assert str[|str|..] == "";
    while i > 0
      invariant 0 <= i <= |str| && AllDigits(str[i..])
      invariant fresh(low) && ten != low && round != low && ten.v == U128(0, 10) && round.v == U128(5, 0)
      invariant low.v.Signed() == ReadLo(str[i..])
    {
      i := i - 1;
      var digit := CharDigit(str[i]);
      if !(0 <= digit <= 9) {
        assert !IsDigit(str[i]);
        return None;
      }
      assert str[i..][1..] == str[i + 1..];
      ghost var x := low.v.Signed() + digit * B64 + 5;
      AddFraction(low.v, digit);
      low.v := Add(Add(low.v, U128(0, digit)), round.v);
      DivideByTen(x);
      low.Div(ten);
    }
    assert str[0..] == str;
    LowWord(low.v);
    r := Some(low.v.lo);
  }

  lemma AddFraction(low: U128, digit: int)
    requires 0 <= low.Signed() <= B64 && 0 <= digit <= 9
    ensures Add(Add(low, U128(0, digit)), U128(5, 0)).Signed() == low.Signed() + digit * B64 + 5
  {
    hide Add;
    SumFits(low.Value(), digit * B64);
    SumFits(low.Value() + digit * B64, 5);
  }

  lemma LowWord(v: U128)
    requires 0 <= v.Signed()
    ensures v.Signed() % B64 == v.lo
  {
  }

  // ---------------------------------------------------------------- splitting the text

  function FindFrom(s: string, c: char, start: nat): (r: Option<nat>)
    requires start <= |s|
    ensures r.Some? ==> start <= r.value < |s| && s[r.value] == c && c !in s[start..r.value]
    ensures r.None? ==> c !in s[start..]
    decreases |s| - start
  {
    if start == |s| then None
    else if s[start] == c then Some(start)
    else
      var r := FindFrom(s, c, start + 1);
      assert s[start..] == [s[start]] + s[start + 1..];
      assert r.Some? ==> s[start..r.value] == [s[start]] + s[start + 1..r.value];
      r
  }

  /** Searching from no position finds nothing. */
  function Find(s: string, c: char, start: Option<nat>): Option<nat>
    requires start.Some? ==> start.value <= |s|
  {
    if start.None? then None else FindFrom(s, c, start.value)
  }

  function FirstNonSpace(s: string, start: nat): (r: Option<nat>)
    requires start <= |s|
    ensures r.Some? ==> start <= r.value < |s|
    decreases |s| - start
  {
    if start == |s| then None else if s[start] != ' ' then Some(start) else FirstNonSpace(s, start + 1)
  }

  datatype Split = Split(negative: bool, start: Option<nat>, point: Option<nat>)

  /** Sign, start of the integer digits and decimal point; a minus anywhere makes the number negative. */
  function SplitText(str: string): (p: Split)
    ensures p.start.Some? ==> p.start.value <= |str|
    ensures p.point.Some? ==> p.start.Some? && p.start.value <= p.point.value < |str|
  {
    var cur := FirstNonSpace(str, 0);
    var minus, plus := Find(str, '-', cur), Find(str, '+', cur);
    var start := if minus.Some? then Some(minus.value + 1)
                 else if plus.Some? then Some(plus.value + 1)
                 else cur;
    Split(minus.Some?, start, Find(str, '.', start))
  }

  function Signed(negative: bool, lo: u64, hi: u64): U128 {
    if negative then Negate(U128(lo, hi)) else U128(lo, hi)
  }

  /** The number a token stands for, or None where a fraction digit fails the source's assertion. */
  function ParseText(str: string): Option<U128> {
    var p := SplitText(str);
    if p.point.Some? then
      var fraction := str[p.point.value + 1..];
      if AllDigits(fraction)
      then Some(Signed(p.negative, ReadLo(fraction) % B64, ReadHi(str[p.start.value..p.point.value])))
      else None
    else if p.start.Some? then Some(Signed(p.negative, 0, ReadHi(str[p.start.value..])))
    else Some(Signed(p.negative, 0, 0))
  }

  method Parse(str: string) returns (value: Option<U128>)
    ensures value == ParseText(str)
  {
    hide ReadLo, Negate;
    var p := SplitText(str);
    var hi: u64, lo: u64 := 0, 0;
    if p.point.Some? {
      hi := ReadHiDigits(str[p.start.value..p.point.value]);
      var r := ReadLoDigits(str[p.point.value + 1..]);
      if r.None? {
        return None;
      }
      lo := r.value;
    } else if p.start.Some? {
      hi := ReadHiDigits(str[p.start.value..]);
    }
    value := Some(Signed(p.negative, lo, hi));
  }

  // ---------------------------------------------------------------- reading digits

  /** The integer a string of digits spells. */
  function Number(s: string): (n: nat)
    requires AllDigits(s)
  {
    if s == "" then 0 else Number(s[..|s| - 1]) * 10 + CharDigit(s[|s| - 1])
  }

  lemma {:induction false} NumberDigits(s: string)
    requires AllDigits(s)
    ensures Number(s) < Pow10(|s|) && DigitsOf(Number(s), |s|) == s
  {
    if s == "" {
      assert DigitsOf(0, 0) == "";
    } else {
      var front, c := s[..|s| - 1], s[|s| - 1];
      NumberDigits(front);
      Pow10Step(|front|);
      LastDigitOf(Number(front), CharDigit(c), |front|);
      assert s == front + [c] && [DigitChar(CharDigit(c))] == [c];
    }
  }

  lemma LastDigitOf(n: nat, d: nat, w: nat)
    requires d <= 9
    ensures DigitsOf(10 * n + d, w + 1) == DigitsOf(n, w) + [DigitChar(d)]
  {
    assert (10 * n + d) / 10 == n && (10 * n + d) % 10 == d;
  }

  /** The integer reader gives the number spelled, modulo 2^64. */
  lemma {:induction false} ReadHiOfDigits(s: string)
    requires AllDigits(s)
    ensures ReadHi(s) == Number(s) % B64
  {
    if s != "" {
      ReadHiOfDigits(s[..|s| - 1]);
      WrapDigit(Number(s[..|s| - 1]), CharDigit(s[|s| - 1]));
    }
  }

  lemma WrapDigit(x: int, d: int)
    ensures Wrap64(Wrap64(x % B64 * 10) + d) == (x * 10 + d) % B64
  {
    ModMul(x, 10, B64);
    ModAdd(x * 10, d, B64);
  }

  lemma LeadingDigit(m: nat, w: nat) returns (d: nat, rest: nat)
    requires w > 0 && m < Pow10(w)
    ensures d <= 9 && rest < Pow10(w - 1) && m == d * Pow10(w - 1) + rest
    ensures DigitsOf(m, w) == [DigitChar(d)] + DigitsOf(rest, w - 1)
  {
    hide Pow10, DigitsOf;
    var p := Pow10(w - 1);
    Pow10Step(w - 1);
    DivBelow(m, p, 10);
    d, rest := m / p, m % p;
    DigitsOfConcat(d, 1, rest, w - 1);
    OneDigit(d);
  }

  lemma DivBelow(m: nat, p: int, k: int)
    requires p > 0 && m < k * p
    ensures 0 <= m / p < k && 0 <= m % p < p
  {
    if m / p >= k { MulMonotone(k, m / p, p); }
  }

  lemma OneDigit(d: nat)
    requires d <= 9
    ensures DigitsOf(d, 1) == [DigitChar(d)]
  {
    assert d / 10 == 0 && d % 10 == d;
    assert DigitsOf(0, 0) == "";
    assert "" + [DigitChar(d)] == [DigitChar(d)];
  }

  /** `read` is within 5/9 of a unit of 2^-64 of the fraction m / p. */
  ghost predicate ReadError(read: int, m: int, p: int) {
    -4 * p <= 9 * (read * p - m * B64) <= 5 * p
  }

  /** The rounded sum stays that close however many digits there are; it may reach a whole 2^64. */
  lemma {:induction false} UncutReadError(m: nat, w: nat)
    requires m < Pow10(w)
    ensures ReadError(ReadLo(DigitsOf(m, w)), m, Pow10(w))
  {
    hide ReadLo, ReadError, Pow10, DigitsOf;
    if w == 0 {
      ReadNothing(m);
    } else {
      var d, rest := LeadingDigit(m, w);
      UncutReadError(rest, w - 1);
      ReadLoCons(d, DigitsOf(rest, w - 1));
      ReadErrorStep(ReadLo(DigitsOf(rest, w - 1)), d, rest, Pow10(w - 1));
      Pow10Step(w - 1);
    }
  }

  lemma ReadNothing(m: nat)
    requires m < Pow10(0)
    ensures ReadError(ReadLo(DigitsOf(m, 0)), m, Pow10(0))
  {
  }

  lemma ReadLoCons(d: nat, s: string)
    requires d <= 9 && AllDigits(s)
    ensures AllDigits([DigitChar(d)] + s)
    ensures ReadLo([DigitChar(d)] + s) == (ReadLo(s) + d * B64 + 5) / 10
  {
    assert ([DigitChar(d)] + s)[1..] == s;
  }

  lemma ReadErrorStep(r: int, d: int, m: int, p: int)
    requires p > 0 && ReadError(r, m, p)
    ensures ReadError((r + d * B64 + 5) / 10, d * p + m, 10 * p)
  {
    var s := (r + d * B64 + 5) / 10;
    var e := 10 * s - (r + d * B64);
    assert -4 <= e <= 5;
    TimesTenth(s, r, d * B64, e, p);
    assert d * p * B64 == d * B64 * p;
    MulMonotone(-4, e, p);
    MulMonotone(e, 5, p);
  }

  lemma TimesTenth(s: int, r: int, x: int, e: int, p: int)
    requires 10 * s == r + x + e
    ensures s * (10 * p) == r * p + x * p + e * p
  {
    assert s * (10 * p) == 10 * s * p;
    assert (r + x + e) * p == r * p + x * p + e * p;
  }

  lemma Pow10Of20()
    ensures Pow10(18) == 1_000_000_000_000_000_000
    ensures Pow10(19) == 10_000_000_000_000_000_000
    ensures Pow10(20) == 100_000_000_000_000_000_000
  {
    hide Pow10;
    assert Pow10(1) == 10 by { Pow10Zero(); Pow10Step(0); }
    Pow10Add(1, 1);
    Pow10Add(2, 2);
    Pow10Add(4, 4);
    Pow10Add(8, 8);
    Pow10Add(16, 2);
    Pow10Add(18, 1);
    Pow10Add(19, 1);
  }

  // ---------------------------------------------------------------- exactly what the fraction reader computes

  lemma {:induction false} Pow10ModNine(k: nat)
    ensures Pow10(k) % 9 == 1
  {
    if k > 0 { Pow10ModNine(k - 1); }
  }

  /** Dividing digit by digit and rounding each time is rounding once: the fraction in units, plus 5/9, rounded down. */
  lemma ReadLoExactly(s: string)
    requires AllDigits(s)
    ensures ReadLo(s) == (9 * Number(s) * B64 + 5 * Pow10(|s|)) / (9 * Pow10(|s|))
  {
    hide ReadLo, ReadError, Number, Pow10;
    NumberDigits(s);
    UncutReadError(Number(s), |s|);
    Pow10ModNine(|s|);
    OnlyQuotient(ReadLo(s), Number(s), Pow10(|s|));
  }

  /** The two error bounds leave one quotient, since no multiple of 9 is 4 times a power of ten. */
  lemma OnlyQuotient(r: int, m: int, p: int)
    requires p > 0 && p % 9 == 1 && ReadError(r, m, p)
    ensures r == (9 * m * B64 + 5 * p) / (9 * p)
  {
    var e := m * B64 - r * p;
    var rest := 9 * e + 5 * p;
    NoMultipleOfNine(e, p);
    assert 9 * m * B64 + 5 * p == r * (9 * p) + rest by { assert r * (9 * p) == 9 * (r * p); }
    DivModUnique(9 * m * B64 + 5 * p, 9 * p, r, rest);
  }

  lemma NoMultipleOfNine(e: int, p: int)
    requires p % 9 == 1
    ensures 9 * e + 5 * p != 9 * p
  {
    var k := p / 9;
    assert p == 9 * k + 1;
  }

  /** The fraction is so near to one that it is rounded up to it. */
  predicate Carries(s: string)
    requires AllDigits(s)
  {
    9 * (Pow10(|s|) - Number(s)) * B64 <= 5 * Pow10(|s|)
  }

  /** It is so small that it is rounded down to nothing. */
  predicate Vanishes(s: string)
    requires AllDigits(s)
  {
    9 * Number(s) * B64 < 4 * Pow10(|s|)
  }

  /** The sum reaches 2^64 exactly for the ones, and zero exactly for the others. */
  lemma ReadLoCarries(s: string)
    requires AllDigits(s)
    ensures ReadLo(s) == B64 <==> Carries(s)
    ensures ReadLo(s) == 0 <==> Vanishes(s)
  {
    hide ReadLo, Number, Pow10;
    ReadLoExactly(s);
    var n, d := 9 * Number(s) * B64 + 5 * Pow10(|s|), 9 * Pow10(|s|);
    QuotientReaches(n, d, B64);
    QuotientReaches(n, d, 1);
  }

  lemma QuotientReaches(n: nat, d: int, k: int)
    requires d > 0
    ensures n / d >= k <==> n >= k * d
    ensures n / d >= 0
  {
    var q := n / d;
    assert n == q * d + n % d;
    if q >= k { MulMonotone(k, q, d); } else { MulMonotone(q + 1, k, d); }
    if q < 0 { MulMonotone(q + 1, 0, d); }
  }

  // ---------------------------------------------------------------- what such digits look like

  const NINETEEN_FIVES: int := 5_555_555_555_555_555_555

  /** Nineteen nines and behind them a fraction that rounds them up. */
  predicate NineteenNines(s: string)
    requires AllDigits(s)
  {
    && |s| >= 20 && (forall i :: 0 <= i < 19 ==> s[i] == '9')
    && AllDigits(s[19..]) && ReadLo(s[19..]) >= B64 - NINETEEN_FIVES
  }

  /** How far below one the rest of the digits may be, behind `k` nines, for the sum to be rounded up to one. */
  function Fives(k: nat): (t: int)
    ensures t >= 0
  {
    if k == 0 then 0 else 10 * Fives(k - 1) + 5
  }

  lemma {:induction false} FivesClosed(k: nat)
    ensures 9 * Fives(k) == 5 * (Pow10(k) - 1)
  {
    if k > 0 { FivesClosed(k - 1); }
  }

  lemma FivesBelow(k: nat)
    requires k <= 19
    ensures Fives(k) <= NINETEEN_FIVES && Fives(19) == NINETEEN_FIVES
  {
    hide Fives, Pow10;
    FivesClosed(k);
    FivesClosed(19);
    Pow10Of20();
    Pow10Monotone(k, 19);
  }

  lemma ReadLoTail(s: string)
    requires AllDigits(s) && s != ""
    ensures AllDigits(s[1..]) && ReadLo(s) == (ReadLo(s[1..]) + CharDigit(s[0]) * B64 + 5) / 10
    ensures 0 <= CharDigit(s[0]) <= 9 && (CharDigit(s[0]) == 9 <==> s[0] == '9')
  {
  }

  /** A sum that close to one starts with a nine, and its rest is about ten times as far away. */
  lemma NearOne(s: string, t: int)
    requires AllDigits(s) && t >= 0 && 10 * t + 5 < B64
    ensures ReadLo(s) >= B64 - t
        <==> s != "" && s[0] == '9' && AllDigits(s[1..]) && ReadLo(s[1..]) >= B64 - (10 * t + 5)
  {
    if s != "" {
      hide ReadLo, AllDigits;
      ReadLoTail(s);
    }
  }

  lemma {:induction false} NinesInFront(s: string, k: nat)
    requires AllDigits(s) && k <= 19
    ensures ReadLo(s) == B64 <==> |s| >= k && (forall i :: 0 <= i < k ==> s[i] == '9')
                                  && AllDigits(s[k..]) && ReadLo(s[k..]) >= B64 - Fives(k)
  {
    hide ReadLo, Fives;
    if k == 0 {
      assert s[0..] == s;
      assert Fives(0) == 0 by { FivesClosed(0); assert Pow10(0) == 1; }
    } else {
      NinesInFront(s, k - 1);
      FivesBelow(k);
      FivesStep(k);
      if |s| >= k - 1 {
        var t := s[k - 1..];
        NearOne(t, Fives(k - 1));
        if t != "" { assert t[0] == s[k - 1] && t[1..] == s[k..]; }
      }
    }
  }

  lemma FivesStep(k: nat)
    requires k > 0
    ensures Fives(k) == 10 * Fives(k - 1) + 5
  {
  }

  /** The digits that carry, by sight. */
  lemma CarriesLooksLike(s: string)
    requires AllDigits(s)
    ensures Carries(s) <==> NineteenNines(s)
  {
    hide Fives, Carries;
    ReadLoCarries(s);
    NinesInFront(s, 19);
    FivesBelow(19);
    if |s| == 19 { assert s[19..] == ""; }
  }

  /** What the fraction reader returns is within 5/9 of a unit, exactly when the carry it would drop does not occur. */
  lemma ReadLoOfDigits(s: string)
    requires AllDigits(s)
    ensures ReadError(ReadLo(s) % B64, Number(s), Pow10(|s|)) <==> !Carries(s)
    ensures Carries(s) ==> ReadLo(s) % B64 == 0
  {
    hide ReadLo, Carries, Vanishes, Pow10, Number;
    NumberDigits(s);
    UncutReadError(Number(s), |s|);
    ReadLoCarries(s);
    CutSum(ReadLo(s), Number(s), Pow10(|s|));
  }

  lemma CutSum(read: int, m: int, p: int)
    requires 0 <= read <= B64 && p > 0 && ReadError(read, m, p)
    ensures ReadError(read % B64, m, p) <==> read != B64
    ensures 9 * Abs(read % B64 * p - m * B64) <= 5 * p <==> read != B64
  {
    if read == B64 {
      assert read % B64 == 0 && read % B64 * p == 0;
    } else {
      assert read % B64 == read;
    }
  }

  const TWENTY_NINES := "99999999999999999999"

  /** The fraction reader returns zero for twenty nines, so 0.999... is read as zero. */
  lemma TwentyNinesCarry()
    ensures AllDigits(TWENTY_NINES) && Carries(TWENTY_NINES)
    ensures ParseText("+0." + TWENTY_NINES) == Some(U128(0, 0))
  {
    hide Carries, ParseText;
    NinesRoundUp(TWENTY_NINES);
    NinesReadAsZero(TWENTY_NINES);
  }

  lemma NinesReadAsZero(s: string)
    requires AllDigits(s) && Carries(s)
    ensures ParseText("+0." + s) == Some(U128(0, 0))
  {
    hide ParseText, ReadLo, ReadHi, Number, Carries, Signed, AllDigits;
    ReadLoOfDigits(s);
    var n := Numeral("", "+", "0", true, s);
    assert AllDigits("0") by { ZeroIsRead(); }
    ParseNumeral(n);
    ZeroIsRead();
    assert "" + ("+" + "0" + ("." + s)) == "+0." + s;
  }

  lemma NinesRoundUp(s: string)
    requires |s| == 20 && forall i :: 0 <= i < 20 ==> s[i] == '9'
    ensures AllDigits(s) && Carries(s)
  {
    hide ReadLo, Carries;
    var last := s[19..];
    assert last == "9" && last[1..] == "";
    ReadLoTail(last);
    ReadLoOfNothing();
    CarriesLooksLike(s);
  }

  lemma ZeroIsRead()
    ensures AllDigits("0") && ReadHi("0") == 0 && Signed(false, 0, 0) == U128(0, 0)
  {
    assert "0"[..0] == "";
  }

  lemma ReadLoOfNothing()
    ensures ReadLo("") == 0
  {
  }

  // ---------------------------------------------------------------- reading any decimal numeral

  /**
   * A numeral: a sign or none, integer digits, and a point with fraction digits or none. In front of it there may be
   * spaces, and in front of a sign anything in which that sign, or a minus, is not found first.
   */
  datatype Numeral = Numeral(front: string, sign: string, ints: string, point: bool, fraction: string)

  predicate Skipped(c: char, sign: string) {
    if sign == "" then c == ' ' else c != '-' && (c == '+' ==> sign == "-")
  }

  predicate IsNumeral(n: Numeral) {
    && (n.sign == "" || n.sign == "+" || n.sign == "-") && (forall c :: c in n.front ==> Skipped(c, n.sign))
    && AllDigits(n.ints) && AllDigits(n.fraction) && (!n.point ==> n.fraction == "")
  }

  function NumeralText(n: Numeral): string {
    n.front + (n.sign + n.ints + (if n.point then "." + n.fraction else ""))
  }

  function Begin(n: Numeral): nat {
    |n.front| + |n.sign|
  }

  /** The number a numeral denotes, times ten to the number of its fraction digits. */
  function Denoted(n: Numeral): int
    requires IsNumeral(n)
  {
    var magnitude := Number(n.ints) * Pow10(|n.fraction|) + Number(n.fraction);
    if n.sign == "-" then -magnitude else magnitude
  }

  /** `v` is within 5/9 of a unit of 2^-64 of the number the numeral denotes. */
  ghost predicate ReadWithin(v: U128, n: Numeral)
    requires IsNumeral(n)
  {
    9 * Abs(v.Signed() * Pow10(|n.fraction|) - Denoted(n) * B64) <= 5 * Pow10(|n.fraction|)
  }

  /** The integer part fits, or the numeral is the least number but for a fraction that vanishes. */
  predicate InRange(n: Numeral)
    requires IsNumeral(n)
  {
    Number(n.ints) < B63 || (n.sign == "-" && Number(n.ints) == B63 && Vanishes(n.fraction))
  }

  /** The splitter finds the parts of a numeral. */
  lemma SplitNumeral(n: Numeral)
    requires IsNumeral(n)
    ensures var nothing := n.sign == "" && n.ints == "" && !n.point;
            SplitText(NumeralText(n)) == Split(n.sign == "-", if nothing then None else Some(Begin(n)),
                                               if n.point then Some(Begin(n) + |n.ints|) else None)
  {
    hide AllDigits, NumeralText, FirstNonSpace, Find;
    var str := NumeralText(n);
    var begin, at := Begin(n), Begin(n) + |n.ints|;
    PartsOfNumeral(n);
    SignFound(str, n.sign, |n.front|);
    PointFound(str, begin, at, n.point);
  }

  /** Where the search for a sign begins and what it finds, when only characters to skip stand in front of `k`. */
  lemma SignFound(str: string, sign: string, k: nat)
    requires sign == "" || sign == "+" || sign == "-"
    requires k + |sign| <= |str| && str[k..k + |sign|] == sign && (forall i :: 0 <= i < k ==> Skipped(str[i], sign))
    requires forall i :: k + |sign| <= i < |str| ==> IsDigit(str[i]) || str[i] == '.'
    ensures var cur := FirstNonSpace(str, 0);
            && (sign == "" ==> cur == if k < |str| then Some(k) else None)
            && Find(str, '-', cur) == (if sign == "-" then Some(k) else None)
            && (sign != "-" ==> Find(str, '+', cur) == if sign == "+" then Some(k) else None)
  {
    hide FirstNonSpace, Find, IsDigit;
    NoSignIn(str, k + |sign|);
    if sign == "" {
      NoSignFound(str, k);
    } else {
      assert str[k] == str[k..k + 1][0] == sign[0];
      if sign == "-" { MinusFound(str, k); } else { PlusFound(str, k); }
    }
  }

  lemma NoSignFound(str: string, k: nat)
    requires k <= |str| && (forall i :: 0 <= i < k ==> str[i] == ' ')
    requires forall i :: k <= i < |str| ==> str[i] != '-' && str[i] != '+' && str[i] != ' '
    ensures var cur := FirstNonSpace(str, 0);
            && cur == (if k < |str| then Some(k) else None)
            && Find(str, '-', cur) == None && Find(str, '+', cur) == None
  {
    hide FirstNonSpace, FindFrom;
    SpacesOnly(str, 0, k);
    FindNone(str, '-', k);
    FindNone(str, '+', k);
  }

  lemma MinusFound(str: string, k: nat)
    requires k < |str| && str[k] == '-' && forall i :: 0 <= i < |str| && i != k ==> str[i] != '-'
    ensures Find(str, '-', FirstNonSpace(str, 0)) == Some(k)
  {
    hide FirstNonSpace, FindFrom;
    NonSpaceBy(str, 0, k);
    FindUnique(str, '-', FirstNonSpace(str, 0).value, k);
  }

  lemma PlusFound(str: string, k: nat)
    requires k < |str| && str[k] == '+' && forall i :: 0 <= i < |str| ==> str[i] != '-' && (str[i] == '+' ==> i == k)
    ensures Find(str, '-', FirstNonSpace(str, 0)) == None && Find(str, '+', FirstNonSpace(str, 0)) == Some(k)
  {
    hide FirstNonSpace, FindFrom;
    NonSpaceBy(str, 0, k);
    FindNone(str, '-', FirstNonSpace(str, 0).value);
    FindUnique(str, '+', FirstNonSpace(str, 0).value, k);
  }

  lemma NoSignIn(str: string, from: nat)
    requires from <= |str| && forall i :: from <= i < |str| ==> IsDigit(str[i]) || str[i] == '.'
    ensures forall i :: from <= i < |str| ==> str[i] != '-' && str[i] != '+' && str[i] != ' '
  {
  }

  lemma PointFound(str: string, begin: nat, at: nat, point: bool)
    requires begin <= at <= |str| && (point ==> at < |str| && str[at] == '.')
    requires forall i :: begin <= i < |str| && !(point && i == at) ==> IsDigit(str[i])
    ensures Find(str, '.', Some(begin)) == if point then Some(at) else None
  {
    if point { FindUnique(str, '.', begin, at); } else { FindNone(str, '.', begin); }
  }

  lemma {:induction false} SpacesOnly(s: string, i: nat, k: nat)
    requires i <= k <= |s| && (forall j :: i <= j < k ==> s[j] == ' ') && (k < |s| ==> s[k] != ' ')
    ensures FirstNonSpace(s, i) == if k < |s| then Some(k) else None
    decreases k - i
  {
    if i < k { SpacesOnly(s, i + 1, k); }
  }

  lemma {:induction false} NonSpaceBy(s: string, i: nat, k: nat)
    requires i <= k < |s| && s[k] != ' '
    ensures FirstNonSpace(s, i).Some? && FirstNonSpace(s, i).value <= k
    decreases k - i
  {
    if i < k { NonSpaceBy(s, i + 1, k); }
  }

  lemma PartsOfNumeral(n: Numeral)
    requires IsNumeral(n)
    ensures var str := NumeralText(n);
            var k, begin, at := |n.front|, Begin(n), Begin(n) + |n.ints|;
            && |str| == at + (if n.point then 1 + |n.fraction| else 0) && str[k..begin] == n.sign
            && (forall i :: 0 <= i < k ==> Skipped(str[i], n.sign))
            && (forall i :: begin <= i < |str| && !(n.point && i == at) ==> IsDigit(str[i]))
            && (n.point ==> str[at] == '.')
  {
    var rest := n.sign + n.ints + (if n.point then "." + n.fraction else "");
    forall i | 0 <= i < |n.front|
      ensures Skipped(NumeralText(n)[i], n.sign)
    {
      assert n.front[i] in n.front;
    }
    assert forall i :: |n.front| <= i < |NumeralText(n)| ==> NumeralText(n)[i] == rest[i - |n.front|];
  }

  lemma ParseNumeral(n: Numeral)
    requires IsNumeral(n)
    ensures ParseText(NumeralText(n)) == Some(Signed(n.sign == "-", ReadLo(n.fraction) % B64, ReadHi(n.ints)))
  {
    hide SplitText, Signed, AllDigits, ReadLo, ReadHi, NumeralText;
    SplitNumeral(n);
    SlicesOfNumeral(n);
    ReadLoOfNothing();
    assert n.ints == "" ==> ReadHi(n.ints) == 0 by { ReadHiOfNothing(); }
  }

  lemma SlicesOfNumeral(n: Numeral)
    requires IsNumeral(n)
    ensures var str := NumeralText(n);
            var begin, at := Begin(n), Begin(n) + |n.ints|;
            && begin <= at <= |str| && str[begin..at] == n.ints
            && (n.point ==> at < |str| && str[at + 1..] == n.fraction)
            && (!n.point ==> n.fraction == "" && str[begin..] == n.ints)
  {
    hide AllDigits;
    var str, front := NumeralText(n), n.front + n.sign;
    var tail := if n.point then "." + n.fraction else "";
    assert str == front + n.ints + tail;
    Slices(front, n.ints, tail);
    if n.point { assert tail[1..] == n.fraction; }
  }

  lemma Slices(a: string, b: string, c: string)
    ensures var s := a + b + c;
            && s[|a|..|a| + |b|] == b && s[|a| + |b|..] == c && (c == "" ==> s[|a|..] == b)
            && (c != "" ==> s[|a| + |b| + 1..] == c[1..])
  {
  }

  lemma ReadHiOfNothing()
    ensures ReadHi("") == 0
  {
  }

  /**
   * Any decimal numeral is read as a number within 5/9 of a unit of what it denotes, exactly when that fits and the
   * fraction does not carry.
   */
  lemma ParseWithin(n: Numeral)
    requires IsNumeral(n)
    ensures var r := ParseText(NumeralText(n));
            r.Some? && (ReadWithin(r.value, n) <==> InRange(n) && !Carries(n.fraction))
  {
    hide ParseText, ReadLo, ReadHi, Signed, Number, Pow10, Carries, Vanishes, ReadError, AllDigits;
    ParseNumeral(n);
    ReadHiOfDigits(n.ints);
    ReadLoOfDigits(n.fraction);
    ReadLoCarries(n.fraction);
    NumberDigits(n.fraction);
    UncutReadError(Number(n.fraction), |n.fraction|);
    SignedWithin(n.sign == "-", Number(n.ints), ReadLo(n.fraction), Number(n.fraction), Pow10(|n.fraction|));
  }

  ghost predicate Near(v: int, x: int, p: int) {
    9 * Abs(v * p - x * B64) <= 5 * p
  }

  lemma SignedWithin(negative: bool, h: nat, read: int, m: nat, p: int)
    requires p > 0 && m < p && 0 <= read <= B64 && ReadError(read, m, p)
    ensures var v := Signed(negative, read % B64, h % B64).Signed();
            var x := h * p + m;
            Near(v, if negative then -x else x, p)
            <==> (h < B63 || (negative && h == B63 && read == 0)) && read != B64
  {
    hide Signed, Near, ReadError;
    var lo := read % B64;
    var x := h * p + m;
    var v := Signed(negative, lo, h % B64).Signed();
    SignedCases(negative, lo, h);
    CutSum(read, m, p);
    if h < B63 {
      InRangeError(negative, h, lo, m, p);
    } else if negative && h == B63 && lo == 0 {
      LeastError(read, m, p);
    } else {
      OutOfRangeError(negative, v, h, lo, m, p);
    }
  }

  lemma SignedCases(negative: bool, lo: u64, h: nat)
    ensures var v := Signed(negative, lo, h % B64).Signed();
            && (h < B63 ==> v == if negative then -(h * B64 + lo) else h * B64 + lo)
            && (negative && h == B63 ==> v == if lo == 0 then -B127 else B127 - lo)
  {
    hide Negate;
    var w := U128(lo, h % B64);
    assert w.Value() == h % B64 * B64 + lo;
    if negative { NegatedWord(w); } else { PositiveWord(w); }
  }

  lemma PositiveWord(w: U128)
    ensures w.Value() < B127 ==> w.Signed() == w.Value()
  {
  }

  lemma NegatedWord(w: U128)
    ensures w.Value() <= B127 ==> Negate(w).Signed() == -w.Value()
    ensures w.Value() > B127 ==> Negate(w).Signed() == B128 - w.Value()
  {
    hide Negate, U128.Value, U128.Signed;
    SignedOfValue(Negate(w), -w.Value());
    if w.Value() > B127 {
      ModAddMultiple(-w.Value(), 1, B128);
      SignedOfValue(Negate(w), B128 - w.Value());
    }
  }

  /** A representable result is as good as its fraction. */
  lemma InRangeError(negative: bool, h: nat, lo: int, m: nat, p: int)
    requires p > 0 && 0 <= lo
    ensures var v, x := h * B64 + lo, h * p + m;
            Near(if negative then -v else v, if negative then -x else x, p) <==> 9 * Abs(lo * p - m * B64) <= 5 * p
  {
    var v, x := h * B64 + lo, h * p + m;
    IntegerPartsCancel(h, lo, m, p);
    assert -v * p == -(v * p) && -x * B64 == -(x * B64);
  }

  lemma IntegerPartsCancel(h: int, lo: int, m: int, p: int)
    ensures (h * B64 + lo) * p - (h * p + m) * B64 == lo * p - m * B64
  {
    assert (h * B64 + lo) * p == h * B64 * p + lo * p;
    assert h * B64 * p == h * p * B64;
  }

  lemma LeastError(read: int, m: nat, p: int)
    requires p > 0 && m < p && (read == 0 || read == B64) && ReadError(read, m, p)
    ensures Near(-B127, -(B63 * p + m), p) <==> read == 0
  {
    assert -B127 * p - -(B63 * p + m) * B64 == m * B64;
  }

  lemma OutOfRangeError(negative: bool, v: int, h: nat, lo: int, m: nat, p: int)
    requires p > 0 && m < p && 0 <= lo < B64 && -B127 <= v < B127 && h >= B63
    requires negative && h == B63 ==> v == B127 - lo
    ensures var x := h * p + m;
            !Near(v, if negative then -x else x, p)
  {
    MulMonotone(v, B127 - 1, p);
    MulMonotone(-B127, v, p);
    MulMonotone(B63, h, p);
    if h > B63 { MulMonotone(B63 + 1, h, p); }
    if negative && h == B63 { MulMonotone(B127 - B64, v, p); }
  }

  lemma FindUnique(s: string, c: char, start: nat, at: nat)
    requires start <= at < |s| && s[at] == c && forall i :: start <= i < |s| && i != at ==> s[i] != c
    ensures FindFrom(s, c, start) == Some(at)
  {
    var r := FindFrom(s, c, start);
    assert s[start..][at - start] == c;
  }

  lemma FindNone(s: string, c: char, start: nat)
    requires start <= |s| && forall i :: start <= i < |s| ==> s[i] != c
    ensures FindFrom(s, c, start) == None
  {
  }
}
