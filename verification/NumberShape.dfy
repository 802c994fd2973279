// What the numbers look like that js_dtoa prints in free format.
module NumberShape {
  import opened Arithmetic
  import opened Limbs
  import opened Rounding
  import opened Logarithms
  import opened Powers
  import opened PowerScaling
  import opened Binary64
  import opened DoubleBits
  import opened FreeFormatFacts
  import opened FreeFormatSearch
  import opened Exponents
  import opened DigitStrings
  import opened DigitOutput
  import opened DoubleDecoding
  import opened NumberText
  import opened JsDtoa
  import opened NumberGrammar
  import opened NumberForms
  import opened NumberLimits

  /** m * 2^(e - 53) is an integer. */
  predicate Integral(m: nat, e: int)
  {
    e >= 53 || (PowPositive(2, 53 - e); m % Pow(2, 53 - e) == 0)
  }

  /** In automatic mode an exponent is shown from the double nearest to radix^(MaxDigits + 4) on, and below the one nearest
      to radix^-6. */
  ghost predicate ShowsExponent(m: nat, e: int, radix: nat, mode: ExpMode)
    requires 2 <= radix <= 36
  {
    match mode
    case ExpEnabled => true
    case ExpDisabled => false
    case ExpAuto => NotBelow(m, e, radix, MaxDigits(radix) + 4) || !NotBelow(m, e, radix, -6)
  }

  predicate Lowercase(s: seq<char>) { forall i :: 0 <= i < |s| ==> !('A' <= s[i] <= 'Z') }

  predicate EndsInZero(s: seq<char>) { s != [] && s[|s| - 1] == '0' }

  /** The exponent as it is printed: the letter, a sign always, and no leading zero. */
  predicate PowerShape(x: Power, radix: nat)
  {
    x.Power? && x.mark == MarkOf(radix) && (x.sign == ['+'] || x.sign == ['-']) && DigitsOf(x.digits, 10) && x.digits != [] &&
    (x.digits[0] == '0' ==> x.digits == ['0'])
  }

  /** The shape of a number other than zero. */
  ghost predicate Shape(n: Numeral, m: nat, e: int, radix: nat, mode: ExpMode)
    requires 2 <= radix <= 36
  {
    n.prefix == [] && n.whole != [] && DigitsOf(n.whole + n.fraction, radix) && Lowercase(n.whole + n.fraction) &&
    (n.dot <==> n.fraction != []) && !EndsInZero(n.fraction) &&
    if ShowsExponent(m, e, radix, mode) then |n.whole| == 1 && n.whole[0] != '0' && PowerShape(n.power, radix)
    else
      n.power == NoPower && (n.dot <==> !Integral(m, e)) &&
      if AtLeastPower(m, e, radix, 0) then n.whole[0] != '0' else n.whole == ['0']
  }

  // ---------- integers ----------

  /** The nearest double of an integer is an integer. */
  lemma RoundedIntegral(m: nat, e: int, v: nat)
    requires v > 0 && TWO52 <= m < TWO53 && IsDouble(m, e, v, 1, NearestEven)
    ensures Integral(m, e)
  {
    hide Pow, InBinade, RoundsTo, Represents, IsRound, Scale;
    if e < 53 {
      var q: nat, b :| RoundsInBinade(q, b, v, 1, NearestEven) && Represents(m, e, q, b);
      PowPositive(2, 1021);
      MulAtLeast(v, Pow(2, 1021));
      MulAtLeast(Pow(2, 1021), v);
      OrdinaryBinade(v, 1, b);
      BinadeDigits(q, v, 1, b);
      if b > e {
        NotDoubled(m, e, q, b);
      }
      RoundsUnits(q, v, 1, b);
      ExactUnits(m, e, q, b, v);
    }
  }

  lemma ExactUnits(m: nat, e: int, q: nat, b: int, v: nat)
    requires m > 0 && -1021 <= b <= e < 53 && Represents(m, e, q, b) && IsRound(q, Scale(v, 53 - b), Scale(1, b - 53), NearestEven)
    ensures Integral(m, e)
  {
    hide Pow;
    ScaleZero(1, b - 53);
    ScaleZero(q, b - e);
    assert q == v * Pow(2, 53 - b);
    PowAdd(2, 53 - e, e - b);
    PowPositive(2, e - b);
    PowPositive(2, 53 - e);
    Assoc(v, Pow(2, 53 - e), Pow(2, e - b));
    MulCancel(m, v * Pow(2, 53 - e), Pow(2, e - b));
    DivUnique(m, Pow(2, 53 - e), v, 0);
  }

  /** Digits behind the point of an integer are zero. */
  lemma IntegralTrailing(m: nat, e: int, b: nat, mant: nat, p: nat, ee: int)
    requires b > 1 && Integral(m, e) && Tried(mant, m, e, b, p, ee) && p > ee
    ensures mant % b == 0
  {
    hide Pow, IsRound, Tried;
    TriedRatio(mant, m, e, b, p, ee);
    PowOne(b);
    PowOne(2);
    var t := Pow(b, p - ee);
    PowSucc(b, p - ee - 1);
    var u := Pow(b, p - ee - 1);
    if e >= 53 {
      var w := Pow(2, e - 53);
      Whole(mant, m, t, w, b, u, m * w);
    } else {
      var w := Pow(2, 53 - e);
      PowPositive(2, 53 - e);
      DivIs(m, w);
      DivNonneg(m, w);
      Assoc(t, m / w, w);
      assert m * (t * 1) == m / w * t * w by {
        Assoc(m / w, w, t);
        Assoc(m / w, t, w);
        Assoc(w, t, 1);
      }
      RoundScale(mant, m / w * t, 1, w, NearestEven);
      Multiple(mant, m / w, t, b, u);
    }
  }

  lemma Whole(mant: nat, m: nat, t: nat, w: nat, b: nat, u: nat, v: nat)
    requires b > 0 && IsRound(mant, m * (t * w), 1, NearestEven) && t == b * u && v == m * w
    ensures mant % b == 0
  {
    Assoc(t, w, 1);
    Assoc(m, w, t);
    Multiple(mant, v, t, b, u);
  }

  lemma Multiple(mant: nat, i: nat, t: nat, b: nat, u: nat)
    requires b > 0 && IsRound(mant, i * t, 1, NearestEven) && t == b * u
    ensures mant % b == 0
  {
    Assoc(u, i, b);
    Assoc(i, u, b);
    Assoc(u, b, 1);
    MulNonneg(i, u);
    DivUnique(mant, b, i * u, 0);
  }

  lemma BelowOne(m: nat, e: int, radix: nat)
    requires radix > 0 && m > 0 && !AtLeastPower(m, e, radix, 0)
    ensures !Integral(m, e)
  {
    hide Pow;
    PowOne(radix);
    PowOne(2);
    if e >= 53 {
      PowPositive(2, e - 53);
    } else {
      DivUnique(m, Pow(2, 53 - e), 0, m);
    }
  }

  /** One is a double. */
  lemma OneLimit(m: nat, e: int, radix: nat)
    requires 2 <= radix <= 36 && TWO52 <= m < TWO53
    ensures NotBelow(m, e, radix, 0) <==> AtLeastPower(m, e, radix, 0)
  {
    hide Pow;
    Twos();
    PowOne(radix);
    PowOne(2);
    assert Canonical(TWO52, 1) by {
      PowPositive(2, 0);
    }
    ExactLimit(m, e, radix, 0, TWO52, 1);
  }

  /** A number from one on is not below the lower limit. */
  lemma OneIsLarge(m: nat, e: int, radix: nat)
    requires 2 <= radix <= 36 && AtLeastPower(m, e, radix, 0)
    ensures AtLeastPower(m, e, radix, -6)
  {
    hide Pow;
    PowOne(radix);
    PowPositive(radix, 6);
    var w := Pow(2, Up(e - 53));
    MulAtLeast(m * w, Pow(radix, 6));
    Assoc(m, w, Pow(radix, 6));
    Assoc(w, Pow(radix, 6), 1);
  }

  /** An integer of at most 53 bits is below the upper limit. */
  lemma SmallBelow(m: nat, e: int, radix: nat)
    requires 2 <= radix <= 36 && TWO52 <= m < TWO53 && 1 <= e <= 53
    ensures !NotBelow(m, e, radix, UpperLimit(radix))
  {
    hide Pow, MaxDigits, IsDouble, IsRound, Over, Ordinary, Scale;
    var k: int := UpperLimit(radix);
    OrdinaryLimit(radix, k);
    PowerUnits(radix, k, e);
    UpperUnits(radix, k, e);
    if NotBelow(m, e, radix, k) {
      RoundedBelow(m, e, Pow(radix, Up(k)), Pow(radix, Up(-k)));
    }
  }

  lemma UpperUnits(radix: nat, k: int, e: int)
    requires 2 <= radix <= 36 && k == UpperLimit(radix) && 1 <= e <= 53
    ensures Over(radix, -k, e - 53) == 1 && Under(radix, -k, e - 53) >= TWO53
  {
    hide Pow, MaxDigits;
    PowOne(radix);
    PowOne(2);
    EnoughDigits(radix);
    PowMonotone(radix, MaxDigits(radix) - 1, k);
    PowPositive(2, 53 - e);
    MulAtLeast(Pow(radix, k), Pow(2, 53 - e));
  }

  lemma WholeIsLarge(m: nat, e: int, radix: nat)
    requires m > 0 && 1 <= e <= 53 && Integral(m, e)
    ensures AtLeastPower(m, e, radix, 0)
  {
    hide Pow;
    PowOne(radix);
    PowOne(2);
    PowPositive(2, 53 - e);
    var w := Pow(2, 53 - e);
    DivIs(m, w);
    DivNonneg(m, w);
    if m / w == 0 {
      DivUnique(m, w, 0, m);
    }
    MulAtLeast(w, m / w);
  }

  /** Integers of at most 53 bits are never shown with an exponent in automatic mode. */
  lemma SmallInteger(m: nat, e: int, radix: nat)
    requires 2 <= radix <= 36 && TWO52 <= m < TWO53 && 1 <= e <= 53 && Integral(m, e)
    ensures !ShowsExponent(m, e, radix, ExpAuto) && AtLeastPower(m, e, radix, 0)
  {
    hide Pow, MaxDigits, IsDouble, AtLeastPower, Integral;
    WholeIsLarge(m, e, radix);
    OneIsLarge(m, e, radix);
    SmallBelow(m, e, radix);
  }

  // ---------- digits ----------

  lemma LowerIsLowercase(s: seq<char>, radix: nat)
    requires radix <= 36 && LowerDigits(s, radix)
    ensures DigitsOf(s, radix) && Lowercase(s)
  {
    DigitsOfMeaning(s, radix);
  }

  /** The last digit that is printed. */
  lemma PrintedLast(v: nat, radix: nat, n: nat)
    requires 2 <= radix <= 36 && n > 0 && v % radix != 0
    ensures Printed(v, radix, n) != [] && !EndsInZero(Printed(v, radix, n))
  {
    hide Printed, DigitChar, ToDigit;
    DigitOf(v, radix);
    PrintedStep(v, radix, n);
    ToDigitChar(v % radix);
  }

  // ---------- the layouts ----------

  lemma ExponentialShape(ds: seq<char>, e: int, radix: nat) returns (n: Numeral)
    requires 2 <= radix <= 36 && ds != [] && ds[0] != '0' && !EndsInZero(ds) && LowerDigits(ds, radix)
    ensures WithDot(ds, 1) + ExponentText(e, radix) == NumeralText(n) && n.sign == [] && n.prefix == []
    ensures n.whole + n.fraction == ds && |n.whole| == 1 && (n.dot <==> n.fraction != []) && !EndsInZero(n.fraction)
    ensures PowerShape(n.power, radix)
  {
    hide ExponentText, LowerDigits, PowerText;
    var x := PrintedPower(e, radix);
    n := Numeral([], [], ds[..1], |ds| > 1, ds[1..], x);
    DotAfterFirst(ds);
    var middle := if n.dot then ['.'] + n.fraction else [];
    assert NumeralText(n) == n.whole + (middle + PowerText(x)) == n.whole + middle + PowerText(x);
  }

  lemma DotAfterFirst(ds: seq<char>)
    requires ds != []
    ensures WithDot(ds, 1) == ds[..1] + (if |ds| > 1 then ['.'] + ds[1..] else [])
  {
  }

  lemma FractionShape(ds: seq<char>, z: nat) returns (n: Numeral)
    requires ds != [] && !EndsInZero(ds)
    ensures ['0', '.'] + ZeroChars(z) + ds == NumeralText(n) && n.sign == [] && n.prefix == [] && n.power == NoPower
    ensures n.whole == ['0'] && n.dot && n.fraction == ZeroChars(z) + ds && !EndsInZero(n.fraction)
  {
    n := Numeral([], [], ['0'], true, ZeroChars(z) + ds, NoPower);
  }

  lemma DottedShape(ds: seq<char>, e: nat) returns (n: Numeral)
    requires 0 < e < |ds| && !EndsInZero(ds) && ds[0] != '0'
    ensures WithDot(ds, e) == NumeralText(n) && n.sign == [] && n.prefix == [] && n.power == NoPower
    ensures n.whole + n.fraction == ds && n.whole != [] && n.whole[0] != '0' && n.dot && n.fraction != [] && !EndsInZero(n.fraction)
  {
    n := Numeral([], [], ds[..e], true, ds[e..], NoPower);
  }

  lemma PlainShape(whole: seq<char>) returns (n: Numeral)
    ensures whole == NumeralText(n) && n == Numeral([], [], whole, false, [], NoPower)
  {
    n := Numeral([], [], whole, false, [], NoPower);
  }

  /** Every layout has its shape. */
  lemma LayoutShape(m: nat, e: int, radix: nat, mode: ExpMode, ds: seq<char>, ee: int, exponent: bool, whole: bool, one: bool)
    returns (n: Numeral)
    requires 2 <= radix <= 36 && ds != [] && ds[0] != '0' && !EndsInZero(ds) && LowerDigits(ds, radix)
    requires exponent <==> ShowsExponent(m, e, radix, mode)
    requires exponent <==> mode.ExpEnabled? || (mode.ExpAuto? && (ee <= -6 || ee > MaxDigits(radix) + 4))
    requires one == AtLeastPower(m, e, radix, 0) == (ee > 0)
    requires !exponent ==> whole == Integral(m, e) == (ee >= |ds|)
    ensures Layout(ds, ee, radix, mode) == NumeralText(n) && n.sign == [] && Shape(n, m, e, radix, mode)
  {
    hide ExponentText, ShowsExponent, AtLeastPower, Integral, WithDot, MaxDigits, PowerShape, NumeralText, DigitsOf, Lowercase, EndsInZero,
         ZeroChars;
    if exponent {
      n := ExponentialShape(ds, ee - 1, radix);
      FirstKept(n.whole, n.fraction, ds);
    } else if ee <= 0 {
      n := FractionShape(ds, -ee);
      ZerosPrinted(-ee, ds, radix, true);
    } else if ee < |ds| {
      n := DottedShape(ds, ee);
    } else {
      n := PlainShape(ds + ZeroChars(ee - |ds|));
      ZerosPrinted(ee - |ds|, ds, radix, false);
      NoFraction(ds + ZeroChars(ee - |ds|));
    }
    LowerIsLowercase(n.whole + n.fraction, radix);
  }

  lemma FirstKept(whole: seq<char>, fraction: seq<char>, ds: seq<char>)
    requires whole + fraction == ds && |whole| == 1
    ensures whole[0] == ds[0]
  {
    assert (whole + fraction)[0] == whole[0];
  }

  lemma NoFraction(s: seq<char>)
    ensures s + [] == s && !EndsInZero([])
  {
  }

  lemma ZerosPrinted(z: nat, ds: seq<char>, radix: nat, front: bool)
    requires 2 <= radix <= 36 && LowerDigits(ds, radix) && ds != []
    ensures front ==> LowerDigits(['0'] + (ZeroChars(z) + ds), radix)
    ensures !front ==> LowerDigits(ds + ZeroChars(z), radix) && (ds + ZeroChars(z))[0] == ds[0] && ds + ZeroChars(z) != []
  {
    assert ToDigit('0') == 0;
    hide ToDigit;
  }

  /** The digits that the search finds fit the layout. */
  lemma FoundFits(m: nat, e: int, radix: nat, mode: ExpMode, mant: nat, p: nat, ee: int)
    requires 2 <= radix <= 36 && Canonical(m, e) && e <= 1024 && Found(m, e, radix, mant, p, ee)
    ensures ShowsExponent(m, e, radix, mode) <==> mode.ExpEnabled? || (mode.ExpAuto? && (ee <= -6 || ee > MaxDigits(radix) + 4))
    ensures AtLeastPower(m, e, radix, 0) <==> ee > 0
    ensures Integral(m, e) <==> ee >= p
  {
    hide Pow, MaxDigits, NotBelow, AtLeastPower, SearchResult, MulLog2Radix, Integral, Bracket, Canonical;
    CanonicalSize(m, e);
    CanonicalRange(m, e);
    MulLog2RadixExact(e - 1, radix);
    FoundLimits(m, e, radix, mant, p, ee, 1 + MulLog2Radix(e - 1, radix));
    OneLimit(m, e, radix);
    FoundIntegral(m, e, radix, mant, p, ee, 1 + MulLog2Radix(e - 1, radix));
  }

  lemma FoundIntegral(m: nat, e: int, radix: nat, mant: nat, p: nat, ee: int, e0: int)
    requires 2 <= radix <= 36 && TWO52 <= m < TWO53 && SearchResult(mant, p, ee, m, e, radix, e0, MaxDigits(radix))
    requires mant % radix != 0 && mant > 0
    ensures Integral(m, e) <==> ee >= p
  {
    hide Pow, MaxDigits, Integral, AllWork, Works, Tried, IsDouble;
    if ee >= p {
      PowOne(radix);
      PowPositive(radix, ee - p);
      MulAtLeast(mant, Pow(radix, ee - p));
      RoundedIntegral(m, e, mant * Pow(radix, ee - p));
    } else if Integral(m, e) {
      IntegralTrailing(m, e, radix, mant, p, ee);
    }
  }

  /** The shape of what is printed for a number other than zero. */
  lemma FiniteShape(m: nat, e: int, radix: nat, mode: ExpMode, text: seq<char>) returns (n: Numeral)
    requires 2 <= radix <= 36 && Canonical(m, e) && e <= 1024 && PrintsFinite(m, e, radix, mode, text)
    ensures text == NumeralText(n) && n.sign == [] && Shape(n, m, e, radix, mode)
  {
    hide Pow, MaxDigits, Canonical, ShowsExponent, AtLeastPower, Integral, SearchResult, MulLog2Radix, Integer, Layout, Printed, Shape,
         NumeralText;
    CanonicalSize(m, e);
    if IsInteger(m, e, mode) {
      n := IntegerShape(m, e, radix, mode, text);
    } else {
      var mant: nat, p: nat, ee :| Found(m, e, radix, mant, p, ee) && text == Layout(Printed(mant, radix, p), ee, radix, mode);
      var ds := Printed(mant, radix, p);
      FoundFits(m, e, radix, mode, mant, p, ee);
      PrintedFirst(mant, radix, p);
      PrintedLower(mant, radix, p);
      PrintedLast(mant, radix, p);
      n := LayoutShape(m, e, radix, mode, ds, ee, ShowsExponent(m, e, radix, mode), Integral(m, e), AtLeastPower(m, e, radix, 0));
    }
  }

  lemma IntegerShape(m: nat, e: int, radix: nat, mode: ExpMode, text: seq<char>) returns (n: Numeral)
    requires 2 <= radix <= 36 && TWO52 <= m < TWO53 && IsInteger(m, e, mode) && PrintsInteger(m, e, radix, mode, text)
    ensures text == NumeralText(n) && n.sign == [] && Shape(n, m, e, radix, mode)
  {
    hide Pow, Integer, NotBelow, AtLeastPower, MaxDigits, NumeralText, DigitsOf, Lowercase, EndsInZero;
    SmallInteger(m, e, radix);
    var v: nat :| v > 0 && v * Pow(2, 53 - e) == m && text == Integer(v, radix);
    IntegerFacts(v, radix);
    n := PlainShape(text);
    NoFraction(text);
    LowerIsLowercase(n.whole + n.fraction, radix);
  }

  /** What js_dtoa prints, said of the double alone. With an exponent (always, never, or from the limits on) there is one
      digit other than zero before the point; without one, a zero before the point exactly below 1, and a point exactly
      when the number is no integer; nowhere a zero too many. */
  lemma PrintedShape(a: nat, radix: nat, mode: ExpMode, minusZero: bool, s: seq<char>) returns (n: Numeral)
    requires a < TWO64 && 2 <= radix <= 36 && 0 < a % SIGN_BIT < INFINITY_BITS && Prints(a, radix, mode, minusZero, s)
    ensures s == NumeralText(n) && n.sign == if a >= SIGN_BIT then ['-'] else []
    ensures var (m, e) := Decode(a % SIGN_BIT); Shape(n, m, e, radix, mode)
  {
    hide Decode, Assemble, PrintsFinite, Canonical, Shape, BodyText;
    var abs, sign := a % SIGN_BIT, SignText(a, minusZero);
    DecodeAssemble(abs);
    var m, e := Decode(abs).0, Decode(abs).1;
    var n0 := FiniteShape(m, e, radix, mode, s[|sign|..]);
    n := n0.(sign := sign);
    assert s == sign + s[|sign|..];
    Resigned(n0, n, m, e, radix, mode);
  }

  lemma Resigned(n0: Numeral, n: Numeral, m: nat, e: int, radix: nat, mode: ExpMode)
    requires 2 <= radix <= 36 && n == n0.(sign := n.sign) && n0.sign == [] && Shape(n0, m, e, radix, mode)
    ensures Shape(n, m, e, radix, mode) && NumeralText(n) == n.sign + NumeralText(n0)
  {
    hide ShowsExponent, AtLeastPower, Integral, PowerShape, DigitsOf, Lowercase, EndsInZero;
    assert [] + (n.prefix + BodyText(n)) == n.prefix + BodyText(n);
  }

  /** Zero is printed as one digit, with the exponent zero if it has to have one, and with its sign on request. */
  lemma ZeroShape(a: nat, radix: nat, mode: ExpMode, minusZero: bool, s: seq<char>)
    requires a < TWO64 && 2 <= radix <= 36 && a % SIGN_BIT == 0 && Prints(a, radix, mode, minusZero, s)
    ensures s == (if a == SIGN_BIT && minusZero then ['-'] else []) + ['0'] + if mode.ExpEnabled? then [MarkOf(radix)] + ['+', '0'] else []
  {
    hide ExponentText;
    assert a == 0 || a == SIGN_BIT;
    ZeroDigits();
    ZeroPower(radix);
  }

  lemma ZeroDigits()
    ensures ['0'] + ZeroChars(0) == ['0'] && WithDot(['0'], 1) == ['0']
  {
  }

  lemma ZeroPower(radix: nat)
    requires 2 <= radix <= 36
    ensures ExponentText(0, radix) == [MarkOf(radix)] + ['+', '0']
  {
    SmallRadixes(radix);
  }

  // ---------- radix 10 ----------

  const MILLIONTH := 4722366482869645

  lemma DecimalPowers()
    ensures Pow(10, 21) == 1000000000000000000000 && Pow(10, 6) == 1000000 && Pow(2, 72) == 4722366482869645213696
    ensures Pow(2, 17) == 131072 && Pow(2, 71) == 2361183241434822606848 && Pow(2, 73) == 9444732965739290427392
  {
    hide Pow;
    UpperPowers2();
    SixthPower(10);
    TwoPower(17);
    TwoPower(18);
    TwoPower(19);
    TwoPower(20);
    Twos();
    PowAdd(2, 53, 18);
    PowAdd(2, 53, 19);
    PowAdd(2, 53, 20);
  }

  /** The double nearest to 10^-6 lies below it, and is still printed without an exponent: comparing with the power itself
      would be wrong. */
  lemma MillionthIsBelow()
    ensures !AtLeastPower(MILLIONTH, -19, 10, -6) && NotBelow(MILLIONTH, -19, 10, -6)
    ensures !ShowsExponent(MILLIONTH, -19, 10, ExpAuto)
  {
    hide Pow, InBinade, IsDouble;
    DecimalPowers();
    PowOne(2);
    PowOne(10);
    RoundedWithin(MILLIONTH, -19, Pow(10, Up(-6)), Pow(10, Up(6)), Pow(2, 72), Pow(10, 6));
    MillionthSmall();
  }

  lemma MillionthSmall()
    ensures !NotBelow(MILLIONTH, -19, 10, 21)
  {
    hide Pow, IsDouble;
    DecimalPowers();
    PowOne(2);
    PowOne(10);
    Sextillion(MILLIONTH, -19);
    PowPositive(2, 72);
    MulAtLeast(Pow(10, 21), Pow(2, 72));
  }

  /** 10^21 is a double. */
  lemma Sextillion(m: nat, e: int)
    requires TWO52 <= m < TWO53
    ensures NotBelow(m, e, 10, 21) <==> AtLeastPower(m, e, 10, 21)
  {
    hide Pow, IsDouble;
    DecimalPowers();
    PowOne(2);
    PowOne(10);
    assert Canonical(7629394531250000, 70);
    ExactLimit(m, e, 10, 21, 7629394531250000, 70);
  }

  lemma AboveMillionth(m: nat, e: int)
    requires TWO52 <= m < TWO53
    ensures AtLeastPower(m, e, 10, -6) <==> e > -19 || (e == -19 && m > MILLIONTH)
  {
    hide Pow;
    DecimalPowers();
    PowOne(2);
    PowOne(10);
    if e >= 53 {
      PowPositive(2, e - 53);
      MulAtLeast(1000000, Pow(2, e - 53));
      MulAtLeast(m, 1000000 * Pow(2, e - 53));
    } else if e > -19 {
      PowMonotone(2, 53 - e, 71);
    } else if e < -19 {
      PowMonotone(2, 73, 53 - e);
    }
  }

  /** In radix 10 exponents are shown from 10^21 on, and below the double nearest to 10^-6. */
  lemma DecimalLimits(m: nat, e: int)
    requires TWO52 <= m < TWO53
    ensures ShowsExponent(m, e, 10, ExpAuto) <==> AtLeastPower(m, e, 10, 21) || e < -19 || (e == -19 && m < MILLIONTH)
  {
    hide Pow, IsDouble, AtLeastPower;
    Sextillion(m, e);
    AboveMillionth(m, e);
    MillionthIsBelow();
    if IsDouble(m, e, Pow(10, Up(-6)), Pow(10, Up(6)), NearestEven) {
      PowPositive(10, Up(6));
      AboveMillionth(MILLIONTH, -19);
      DoubleUnique(m, e, MILLIONTH, -19, Pow(10, Up(-6)), Pow(10, Up(6)), NearestEven);
    }
  }
}
