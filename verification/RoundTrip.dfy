// What js_dtoa prints in free format, js_atod reads back as the same double, in every radix.
module NumberForms {
  import opened Arithmetic
  import opened Logarithms
  import opened Powers
  import opened PowerScaling
  import opened FreeFormatFacts
  import opened DigitStrings
  import opened DigitOutput
  import opened NumberSyntax
  import opened NumberReading
  import opened NumberRounding
  import opened DoubleBits
  import opened JsAtod
  import opened NumberGrammar
  import opened NumberText

  /** The shape of every number that is printed: digits, perhaps a point and more digits, perhaps an exponent. */
  datatype Form = Form(whole: seq<char>, dot: bool, fraction: seq<char>, exponent: seq<char>)

  function Text(f: Form): seq<char>
  {
    f.whole + (if f.dot then ['.'] + f.fraction else []) + f.exponent
  }

  /** A digit as js_dtoa prints it. */
  predicate LowerDigit(c: char, radix: nat) { ToDigit(c) < radix && !('A' <= c <= 'Z') }

  predicate LowerDigits(s: seq<char>, radix: nat) { forall i :: 0 <= i < |s| ==> LowerDigit(s[i], radix) }

  predicate FormOk(f: Form, radix: nat)
  {
    2 <= radix <= 36 && f.whole != [] && LowerDigits(f.whole, radix) && LowerDigits(f.fraction, radix) && (!f.dot ==> f.fraction == [])
  }

  lemma LowerDigitChar(d: nat, radix: nat)
    requires d < radix <= 36
    ensures LowerDigit(DigitChar(d), radix)
  {
  }

  lemma {:induction false} PrintedLower(v: nat, radix: nat, n: nat)
    requires 2 <= radix <= 36
    ensures LowerDigits(Printed(v, radix, n), radix)
    decreases n
  {
    hide Printed, DigitChar, LowerDigit;
    if n > 0 {
      DigitOf(v, radix);
      PrintedLower(v / radix, radix, n - 1);
      PrintedStep(v, radix, n);
      LowerDigitChar(v % radix, radix);
      LowerPush(Printed(v / radix, radix, n - 1), DigitChar(v % radix), radix);
    }
  }

  lemma LowerPush(s: seq<char>, c: char, radix: nat)
    requires LowerDigits(s, radix) && LowerDigit(c, radix)
    ensures LowerDigits(s + [c], radix)
  {
    hide LowerDigit;
  }

  lemma {:induction false} IntegerFacts(v: nat, radix: nat)
    requires 2 <= radix <= 36
    ensures LowerDigits(Integer(v, radix), radix) && Read(Integer(v, radix), radix) == v
    ensures v > 0 ==> Integer(v, radix)[0] != '0'
    decreases v
  {
    hide DigitChar, LowerDigit, Read;
    if v < radix {
      LowerDigitChar(v, radix);
      ToDigitChar(v);
      assert Integer(v, radix) == [] + [DigitChar(v)];
      ReadPush([], DigitChar(v), radix);
      ReadNothing(radix);
    } else {
      DigitOf(v, radix);
      SmallerQuotient(v, radix);
      DivIs(v, radix);
      var q := v / radix;
      if q == 0 {
        DivUnique(v, radix, 0, v);
      }
      IntegerFacts(q, radix);
      LowerDigitChar(v % radix, radix);
      LowerPush(Integer(q, radix), DigitChar(v % radix), radix);
      ReadPush(Integer(q, radix), DigitChar(v % radix), radix);
    }
  }

  // ---------- reading a form ----------

  lemma NoExponent(s: seq<char>, start: nat, radix: nat)
    requires 2 <= radix <= 36
    ensures ScanExponent(s, |s|, start, radix) == Exponent(0, false, |s|)
  {
  }

  /** The value of the exponent part. */
  ghost predicate ExponentOf(exponent: seq<char>, radix: nat, value: int, binary: bool)
    requires 2 <= radix <= 36
  {
    (exponent == [] && value == 0 && !binary) ||
    exists e :: exponent == ExponentText(e, radix) && value == ExponentValue(e, radix) &&
                binary == (radix != 10 && PowerOfTwo(radix) && Ctz(radix) <= 4)
  }

  function SignOf(neg: bool): seq<char> { if neg then ['-'] else [] }

  /** A printed number is read part by part. */
  lemma ParseForm(s: seq<char>, neg: bool, f: Form, radix: nat, value: int, binary: bool)
    requires FormOk(f, radix) && 2 <= radix <= 36 && s == SignOf(neg) + Text(f) && ExponentOf(f.exponent, radix, value, binary)
    ensures Parse(s, radix) == Number(neg, f.whole + f.fraction, |f.whole|, value, binary, radix, |s|)
  {
    hide Parse, ExponentText, ExponentValue, IsDigitChar, DigitsOf, MarkFor, LowerDigits, LowerDigit, Ctz, PowerText, PowerValue, IsBinary;
    var power := FormPower(f.exponent, radix, value, binary);
    var n := Numeral(SignOf(neg), [], f.whole, f.dot, f.fraction, power);
    assert NumeralText(n) == s && s + [] == s;
    LowerFacts(f.whole, radix);
    LowerFacts(f.fraction, radix);
    DigitsOfMeaning(f.whole, radix);
    DigitsOfMeaning(f.fraction, radix);
    assert BodyText(n)[0] == f.whole[0] != 'I';
    assert n.prefix + BodyText(n) + [] == BodyText(n);
    ParseNumeral(n, [], radix, radix);
  }

  lemma LowerFacts(s: seq<char>, radix: nat)
    requires LowerDigits(s, radix)
    ensures AllDigits(s, radix) && (s != [] ==> s[0] != 'I')
  {
  }

  /** The letter that is printed before an exponent. */
  function MarkOf(radix: nat): char
  {
    if radix == 10 then 'e' else if radix == 2 || radix == 4 || radix == 8 || radix == 16 then 'p' else '@'
  }

  /** An exponent is printed as its letter, a sign, and its digits. */
  lemma PrintedPower(e: int, radix: nat) returns (x: Power)
    requires 2 <= radix <= 36
    ensures ExponentText(e, radix) == PowerText(x) && PowerValue(x) == ExponentValue(e, radix)
    ensures x.Power? && x.mark == MarkOf(radix) && x.sign == (if ExponentValue(e, radix) < 0 then ['-'] else ['+'])
    ensures var v := ExponentValue(e, radix); x.digits == Integer(if v < 0 then -v else v, 10)
    ensures x.digits != [] && DigitsOf(x.digits, 10) && (x.digits[0] == '0' ==> x.digits == ['0'])
  {
    hide Integer, Read, DigitsOf, LowerDigits, Ctz;
    var value := ExponentValue(e, radix);
    var v := if value < 0 then -value else value;
    SmallRadixes(radix);
    IntegerFacts(v, 10);
    LowerFacts(Integer(v, 10), 10);
    DigitsOfMeaning(Integer(v, 10), 10);
    x := Power(MarkOf(radix), if value < 0 then ['-'] else ['+'], Integer(v, 10));
    assert ExponentText(e, radix) == [x.mark] + (x.sign + x.digits);
    if v == 0 {
      IntegerZero();
    }
  }

  lemma IntegerZero()
    ensures Integer(0, 10) == ['0']
  {
  }

  /** The exponent of a form. */
  lemma FormPower(exponent: seq<char>, radix: nat, value: int, binary: bool) returns (x: Power)
    requires 2 <= radix <= 36 && ExponentOf(exponent, radix, value, binary)
    ensures exponent == PowerText(x) && value == PowerValue(x) && binary == IsBinary(x)
    ensures x.Power? ==> MarkFor(x.mark, radix) && IsSign(x.sign) && x.digits != [] && DigitsOf(x.digits, 10)
  {
    hide ExponentText, ExponentValue, PowerText, PowerValue, DigitsOf, Ctz;
    if exponent == [] {
      EmptyExponent(radix, value, binary);
      EmptyPower();
      return NoPower;
    }
    var e :| exponent == ExponentText(e, radix) && value == ExponentValue(e, radix) &&
             binary == (radix != 10 && PowerOfTwo(radix) && Ctz(radix) <= 4);
    SmallRadixes(radix);
    x := PrintedPower(e, radix);
  }

  lemma EmptyPower()
    ensures PowerText(NoPower) == [] && PowerValue(NoPower) == 0
  {
  }

  lemma EmptyExponent(radix: nat, value: int, binary: bool)
    requires 2 <= radix <= 36 && ExponentOf([], radix, value, binary)
    ensures value == 0 && !binary
  {
    hide Integer;
  }
}

module RoundTrip {
  import opened Arithmetic
  import opened Limbs
  import opened Rounding
  import opened Logarithms
  import opened Powers
  import opened PowerScaling
  import opened Binary64
  import opened FreeFormatFacts
  import opened FreeFormatSearch
  import opened DigitStrings
  import opened DigitOutput
  import opened NumberSyntax
  import opened NumberReading
  import opened NumberRounding
  import opened DoubleBits
  import opened DtoaRoom
  import opened DoubleDecoding
  import opened NumberText
  import opened JsAtod
  import opened JsDtoa
  import opened NumberForms

  // ---------- the value of padded digits ----------

  lemma {:induction false} ReadTrailingZeros(s: seq<char>, j: nat, radix: nat)
    ensures Read(s + ZeroChars(j), radix) == Read(s, radix) * Pow(radix, j)
  {
    hide Read;
    ReadAppend(s, ZeroChars(j), radix);
    ReadZeros(ZeroChars(j), radix);
  }

  lemma ReadPadded(i: nat, ds: seq<char>, j: nat, radix: nat)
    ensures Read(ZeroChars(i) + ds + ZeroChars(j), radix) == Read(ds, radix) * Pow(radix, j)
  {
    hide Read;
    ReadAppend(ZeroChars(i), ds, radix);
    ReadZeros(ZeroChars(i), radix);
    ReadTrailingZeros(ZeroChars(i) + ds, j, radix);
  }

  /** Leading zeros, then digits the first of which is not zero, then zeros. */
  lemma PaddedDigits(i: nat, ds: seq<char>, j: nat)
    requires ds != [] && ds[0] != '0'
    ensures LeadingZeros(ZeroChars(i) + ds + ZeroChars(j)) == i && Significant(ZeroChars(i) + ds + ZeroChars(j)) == ds + ZeroChars(j)
  {
    var d := ZeroChars(i) + ds + ZeroChars(j);
    assert d[i] == ds[0];
    LeadingZerosIs(d, i);
  }

  /** The digits that count in a radix that is not a power of two. */
  lemma PaddedCounted(i: nat, ds: seq<char>, j: nat, radix: nat) returns (k: nat)
    requires 2 <= radix <= 36 && !PowerOfTwo(radix) && ds != [] && ds[0] != '0' && |ds| <= AtodMaxDigits(radix)
    ensures Counted(ZeroChars(i) + ds + ZeroChars(j), radix) == ZeroChars(i) + ds + ZeroChars(k)
  {
    hide LeadingZeros, AtodMaxDigits;
    var d := ZeroChars(i) + ds + ZeroChars(j);
    PaddedDigits(i, ds, j);
    k := KeptDigits(d, radix) - |ds|;
    assert d[..i + (|ds| + k)] == ZeroChars(i) + ds + ZeroChars(k);
  }

  /** Exponents on both sides of a ratio of powers. */
  lemma PowersBalance(b: nat, v: nat, n: nat, c: int, f: int)
    requires c == f - n
    ensures v * Pow(b, n) * Pow(b, Up(c)) * Pow(b, Up(-f)) == v * Pow(b, Up(f)) * Pow(b, Up(-c))
  {
    hide Pow;
    var x := Pow(b, n);
    PowAdd(b, n, Up(c));
    PowAdd(b, n + Up(c), Up(-f));
    PowAdd(b, Up(f), Up(-c));
    assert n + Up(c) + Up(-f) == Up(f) + Up(-c);
    Assoc(v, x, Pow(b, Up(c)));
    Assoc(v, x * Pow(b, Up(c)), Pow(b, Up(-f)));
    Assoc(v, Pow(b, Up(f)), Pow(b, Up(-c)));
  }

  /** The value of a literal made of padded digits, in a radix that is not a power of two. */
  lemma OtherValue(d: seq<char>, i: nat, ds: seq<char>, j: nat, point: nat, expn: int, radix: nat, f: int)
    requires 2 <= radix <= 36 && !PowerOfTwo(radix) && ds != [] && ds[0] != '0' && |ds| <= AtodMaxDigits(radix)
    requires d == ZeroChars(i) + ds + ZeroChars(j) && f == expn - (|d| - point) + j
    ensures Numerator(d, point, expn, false, radix) * Pow(radix, Up(-f)) ==
            Read(ds, radix) * Pow(radix, Up(f)) * Denominator(d, point, expn, false, radix)
  {
    hide Read, Pow, Counted, AtodMaxDigits;
    var k := PaddedCounted(i, ds, j, radix);
    ReadPadded(i, ds, k, radix);
    var c := expn - (i + |ds| + k - point);
    assert Scaling(d, point, expn, false, radix) == c;
    PowersBalance(radix, Read(ds, radix), k, c, f);
  }

  /** The same in a radix 2^k, where the exponent may be one of 2. */
  lemma BinaryValue(d: seq<char>, i: nat, ds: seq<char>, j: nat, point: nat, x: int, expn: int, binary: bool, radix: nat, f: int)
    requires 2 <= radix <= 36 && PowerOfTwo(radix) && d == ZeroChars(i) + ds + ZeroChars(j)
    requires f == x - (|d| - point) + j && expn == if binary then x * Ctz(radix) else x
    ensures Numerator(d, point, expn, binary, radix) * Pow(radix, Up(-f)) ==
            Read(ds, radix) * Pow(radix, Up(f)) * Denominator(d, point, expn, binary, radix)
  {
    hide Read, Pow, Ctz, BoundsOf;
    RadixParts(radix);
    BinaryRadix(radix);
    var k := Ctz(radix);
    ReadPadded(i, ds, j, radix);
    MulNonneg(k, j);
    MulNonneg(k, Up(f));
    MulNonneg(k, Up(-f));
    PowMul(2, k, j);
    PowMul(2, k, Up(f));
    PowMul(2, k, Up(-f));
    var c := (x - (|d| - point)) * k;
    Distrib(k, x, |d| - point);
    assert Scaling(d, point, expn, binary, radix) == c;
    Distrib(k, x - (|d| - point), j);
    BinaryBalance(Read(ds, radix), k, j, c, f);
  }

  lemma BinaryBalance(v: nat, k: nat, j: nat, c: int, f: int)
    requires c == f * k - k * j && k * j >= 0 && k * Up(f) >= 0 && k * Up(-f) >= 0
    ensures v * Pow(2, k * j) * Pow(2, Up(c)) * Pow(2, k * Up(-f)) == v * Pow(2, k * Up(f)) * Pow(2, Up(-c))
  {
    hide Pow;
    SignSplit(f, k);
    var n, g, h := k * j, k * Up(f), k * Up(-f);
    PowAdd(2, n, Up(c));
    PowAdd(2, n + Up(c), h);
    PowAdd(2, g, Up(-c));
    assert n + Up(c) + h == g + Up(-c);
    Assoc(v, Pow(2, n), Pow(2, Up(c)));
    Assoc(v, Pow(2, n) * Pow(2, Up(c)), Pow(2, h));
    Assoc(v, Pow(2, g), Pow(2, Up(-c)));
  }

  lemma DenominatorPositive(d: seq<char>, point: nat, expn: int, binary: bool, radix: nat)
    requires 2 <= radix <= 36
    ensures Denominator(d, point, expn, binary, radix) > 0
  {
    PowPositive(ScaleBase(radix), Up(-Scaling(d, point, expn, binary, radix)));
  }

  /** A literal that stands for `v * radix^f` is read as the double that this number rounds to. */
  lemma LiteralBits(d: seq<char>, i: nat, ds: seq<char>, j: nat, point: nat, x: int, expn: int, binary: bool, radix: nat, f: int,
                    m: nat, e: int, a: nat)
    requires 2 <= radix <= 36 && ds != [] && ds[0] != '0' && (!PowerOfTwo(radix) ==> |ds| <= AtodMaxDigits(radix) && !binary)
    requires d == ZeroChars(i) + ds + ZeroChars(j) && f == x - (|d| - point) + j && expn == if binary then x * Ctz(radix) else x
    requires m > 0 && e <= 1024 && IsDouble(m, e, Read(ds, radix) * Pow(radix, Up(f)), Pow(radix, Up(-f)), NearestEven)
    requires Nearest(a, Numerator(d, point, expn, binary, radix), Denominator(d, point, expn, binary, radix))
    ensures a == Assemble(m, e)
  {
    hide Read, Pow, IsDouble, Nearest, Numerator, Denominator, Assemble, Ctz, AtodMaxDigits;
    if PowerOfTwo(radix) {
      BinaryValue(d, i, ds, j, point, x, expn, binary, radix, f);
    } else {
      OtherValue(d, i, ds, j, point, expn, radix, f);
    }
    DenominatorPositive(d, point, expn, binary, radix);
    PowPositive(radix, Up(-f));
    var n, q := Numerator(d, point, expn, binary, radix), Denominator(d, point, expn, binary, radix);
    IsDoubleRatio(m, e, Read(ds, radix) * Pow(radix, Up(f)), Pow(radix, Up(-f)), n, q, NearestEven);
    NearestIs(a, m, e, n, q);
  }

  // ---------- the forms that are printed ----------

  /** The string is a number, and if `a` is what it denotes then `a` is `b`. */
  ghost predicate ReadsAs(s: seq<char>, radix: nat, a: nat, b: nat)
  {
    !Parse(s, radix).NotANumber? && (Denoted(Parse(s, radix), a) ==> a == b)
  }

  /** The digits of a form and its exponent stand for `v * radix^f`. */
  ghost predicate Stands(form: Form, radix: nat, ds: seq<char>, i: nat, j: nat, x: int, value: int, binary: bool, f: int)
  {
    FormOk(form, radix) && ExponentOf(form.exponent, radix, value, binary) && (!PowerOfTwo(radix) ==> !binary) &&
    value == (if binary then x * Ctz(radix) else x) && -EXPONENT_LIMIT < value < EXPONENT_LIMIT &&
    form.whole + form.fraction == ZeroChars(i) + ds + ZeroChars(j) &&
    f == x - (i + |ds| + j - |form.whole|) + j
  }

  /** Every layout of digits is the text of a form that stands for the same number. */
  lemma LayoutForm(ds: seq<char>, e: int, radix: nat, mode: ExpMode)
    returns (form: Form, i: nat, j: nat, x: int, value: int, binary: bool)
    requires 2 <= radix <= 36 && ds != [] && ds[0] != '0' && LowerDigits(ds, radix) && -2000 < e < 2000
    ensures Text(form) == Layout(ds, e, radix, mode) && Stands(form, radix, ds, i, j, x, value, binary, e - |ds|)
  {
    hide LowerDigits, LowerDigit, ExponentText, ExponentValue, Ctz, WithDot, FormOk, Text, ExponentOf, ZeroChars;
    var p := |ds|;
    i, j, x, value, binary := 0, 0, 0, 0, false;
    PadNothing(ds);
    if mode.ExpEnabled? || (mode.ExpAuto? && (e <= -6 || e > MaxDigits(radix) + 4)) {
      form := ExponentialForm(ds, e - 1, radix);
      x := e - 1;
      value := ExponentValue(e - 1, radix);
      binary := radix != 10 && PowerOfTwo(radix) && Ctz(radix) <= 4;
      SmallValue(e - 1, radix);
      return;
    }
    if e <= 0 {
      i := 1 - e;
      form := FractionForm(ds, -e, radix);
    } else if e < p {
      form := DottedForm(ds, e, radix);
    } else {
      j := e - p;
      form := WholeForm(ds, j, radix);
    }
    PlainStands(form, radix, ds, i, j, e - p);
  }

  lemma PlainStands(form: Form, radix: nat, ds: seq<char>, i: nat, j: nat, f: int)
    requires FormOk(form, radix) && form.exponent == [] && form.whole + form.fraction == ZeroChars(i) + ds + ZeroChars(j)
    requires f == -(i + |ds| + j - |form.whole|) + j
    ensures Stands(form, radix, ds, i, j, 0, 0, false, f)
  {
    hide LowerDigit, Ctz;
  }

  lemma FractionForm(ds: seq<char>, n: nat, radix: nat) returns (form: Form)
    requires 2 <= radix <= 36 && LowerDigits(ds, radix)
    ensures Text(form) == ['0', '.'] + ZeroChars(n) + ds && FormOk(form, radix) && form.exponent == []
    ensures form.whole + form.fraction == ZeroChars(n + 1) + ds + ZeroChars(0) && |form.whole| == 1
  {
    hide LowerDigit;
    form := Form(['0'], true, ZeroChars(n) + ds, []);
    ZeroIsDigit(radix);
  }

  lemma DottedForm(ds: seq<char>, e: nat, radix: nat) returns (form: Form)
    requires 2 <= radix <= 36 && LowerDigits(ds, radix) && 0 < e < |ds| && ds[0] != '0'
    ensures Text(form) == WithDot(ds, e) && FormOk(form, radix) && form.exponent == []
    ensures form.whole + form.fraction == ds && |form.whole| == e
  {
    hide LowerDigit;
    form := Form(ds[..e], true, ds[e..], []);
  }

  lemma WholeForm(ds: seq<char>, j: nat, radix: nat) returns (form: Form)
    requires 2 <= radix <= 36 && LowerDigits(ds, radix) && ds != [] && ds[0] != '0'
    ensures Text(form) == ds + ZeroChars(j) && FormOk(form, radix) && form.exponent == []
    ensures form.whole + form.fraction == ZeroChars(0) + ds + ZeroChars(j) && |form.whole| == |ds| + j
  {
    hide LowerDigit;
    form := Form(ds + ZeroChars(j), false, [], []);
    ZeroIsDigit(radix);
  }

  lemma PadNothing(ds: seq<char>)
    ensures ZeroChars(0) + ds + ZeroChars(0) == ds
  {
  }

  lemma ZeroIsDigit(radix: nat)
    requires radix > 0
    ensures LowerDigit('0', radix)
  {
  }

  lemma SmallValue(e: int, radix: nat)
    requires 2 <= radix <= 36 && -2001 < e < 2000
    ensures var x := ExponentValue(e, radix); -EXPONENT_LIMIT < x < EXPONENT_LIMIT
    ensures ExponentValue(e, radix) == if radix != 10 && PowerOfTwo(radix) && Ctz(radix) <= 4 then e * Ctz(radix) else e
  {
  }

  /** d.ddd with an exponent. */
  lemma ExponentialForm(ds: seq<char>, e: int, radix: nat) returns (form: Form)
    requires 2 <= radix <= 36 && ds != [] && LowerDigits(ds, radix) && ds[0] != '0'
    ensures Text(form) == WithDot(ds, 1) + ExponentText(e, radix) && FormOk(form, radix) && form.exponent == ExponentText(e, radix)
    ensures form.whole + form.fraction == ds && |form.whole| == 1
    ensures ExponentOf(form.exponent, radix, ExponentValue(e, radix), radix != 10 && PowerOfTwo(radix) && Ctz(radix) <= 4)
  {
    hide LowerDigit, ExponentText, ExponentValue, Ctz;
    form := Form(ds[..1], |ds| > 1, ds[1..], ExponentText(e, radix));
  }

  /** A form is read as the double that its number rounds to. */
  lemma FormBits(s: seq<char>, neg: bool, form: Form, radix: nat, ds: seq<char>, i: nat, j: nat, x: int, value: int, binary: bool, f: int,
                 m: nat, e: int, a: nat)
    requires 2 <= radix <= 36 && Stands(form, radix, ds, i, j, x, value, binary, f) && s == SignOf(neg) + Text(form)
    requires ds != [] && ds[0] != '0' && (!PowerOfTwo(radix) ==> |ds| <= AtodMaxDigits(radix)) && Read(ds, radix) > 0
    requires m > 0 && e <= 1024 && IsDouble(m, e, Read(ds, radix) * Pow(radix, Up(f)), Pow(radix, Up(-f)), NearestEven)
    ensures ReadsAs(s, radix, a, Assemble(m, e) + SignBits(neg))
  {
    hide Read, Pow, IsDouble, Nearest, Numerator, Denominator, Assemble, Ctz, AtodMaxDigits, Text, FormOk, Parse, ExponentOf;
    ParseForm(s, neg, form, radix, value, binary);
    var d := form.whole + form.fraction;
    ReadPadded(i, ds, j, radix);
    PowPositive(radix, j);
    MulAtLeast(Read(ds, radix), Pow(radix, j));
    if Denoted(Parse(s, radix), a) {
      LiteralBits(d, i, ds, j, |form.whole|, x, value, binary, radix, f, m, e, a - SignBits(neg));
    }
  }

  // ---------- printing, then reading ----------

  /** Digits that convert back are read back. */
  lemma DigitsReadBack(m: nat, e: int, radix: nat, mode: ExpMode, text: seq<char>, neg: bool, a: nat)
    requires 2 <= radix <= 36 && Canonical(m, e) && e <= 1024 && PrintsDigits(m, e, radix, mode, text)
    ensures ReadsAs(SignOf(neg) + text, radix, a, Assemble(m, e) + SignBits(neg))
  {
    hide Read, Pow, IsDouble, Assemble, Canonical, Layout, Printed, Denoted, Stands, Parse;
    CanonicalSize(m, e);
    var mant: nat, p: nat, ee :| Found(m, e, radix, mant, p, ee) && text == Layout(Printed(mant, radix, p), ee, radix, mode);
    var ds := Printed(mant, radix, p);
    PrintedFirst(mant, radix, p);
    PrintedLower(mant, radix, p);
    ReadPrinted(mant, radix, p);
    PowPositive(radix, p - 1);
    DivUnique(mant, Pow(radix, p), 0, mant);
    if !PowerOfTwo(radix) {
      DigitsKept(radix);
    }
    var form, i, j, x, value, binary := LayoutForm(ds, ee, radix, mode);
    assert -(ee - p) == p - ee;
    FormBits(SignOf(neg) + text, neg, form, radix, ds, i, j, x, value, binary, ee - p, m, e, a);
  }

  /** An integer is a double that rounds to itself. */
  lemma IntegerIsDouble(m: nat, e: int, n: nat, radix: nat)
    requires Canonical(m, e) && 1 <= e <= 53 && n * Pow(2, 53 - e) == m
    ensures IsDouble(m, e, n * Pow(radix, Up(0)), Pow(radix, Up(0)), NearestEven)
  {
    hide IsDouble, Canonical;
    PowOne(radix);
    ScaleZero(1, e - 53);
    CloseRounds(m, e, n, 1);
  }

  lemma IntegerReadsBack(m: nat, e: int, radix: nat, mode: ExpMode, text: seq<char>, neg: bool, a: nat)
    requires 2 <= radix <= 36 && Canonical(m, e) && PrintsInteger(m, e, radix, mode, text)
    ensures ReadsAs(SignOf(neg) + text, radix, a, Assemble(m, e) + SignBits(neg))
  {
    hide Read, Pow, IsDouble, Assemble, Canonical, Integer, Denoted, Parse;
    CanonicalSize(m, e);
    var n: nat :| n > 0 && n * Pow(2, 53 - e) == m && text == Integer(n, radix);
    IntegerFacts(n, radix);
    IntegerIsDouble(m, e, n, radix);
    PowPositive(2, 53 - e);
    MulAtLeast(n, Pow(2, 53 - e));
    EnoughDigits(radix);
    IntegerLength(n, radix, MaxDigits(radix) - 1);
    if !PowerOfTwo(radix) {
      DigitsKept(radix);
    }
    PadNothing(text);
    var form := Form(text, false, [], []);
    assert Text(form) == text;
    assert text + [] == text;
    FormBits(SignOf(neg) + text, neg, form, radix, text, 0, 0, 0, 0, false, 0, m, e, a);
  }

  /** Infinity has a name in every radix. */
  lemma InfinityReadsBack(radix: nat, neg: bool, a: nat)
    requires 2 <= radix <= 36
    ensures ReadsAs(SignOf(neg) + "Infinity", radix, a, INFINITY_BITS + SignBits(neg))
  {
    hide Scan, ScanExponent;
    var s := SignOf(neg) + "Infinity";
    var start := |SignOf(neg)|;
    assert s[start] == 'I';
    assert s[start..start + 8] == INFINITY_NAME;
    assert SignLength(At(s, 0)) == start && (At(s, 0) == '-') == neg;
    assert Parse(s, radix) == Infinite(neg, start + 8);
  }

  /** Zero keeps the sign that is printed. */
  lemma ZeroReadsBack(radix: nat, mode: ExpMode, neg: bool, a: nat)
    requires 2 <= radix <= 36
    ensures ReadsAs(SignOf(neg) + Layout(['0'], 1, radix, mode), radix, a, SignBits(neg))
  {
    hide Parse, ExponentText, ExponentValue, Ctz, Read;
    var text := Layout(['0'], 1, radix, mode);
    var exponent := if mode.ExpEnabled? then ExponentText(0, radix) else [];
    var form := Form(['0'], false, [], exponent);
    ZeroIsDigit(radix);
    ZeroText(radix, mode);
    assert Text(form) == text;
    var binary := mode.ExpEnabled? && radix != 10 && PowerOfTwo(radix) && Ctz(radix) <= 4;
    var value := if mode.ExpEnabled? then ExponentValue(0, radix) else 0;
    ParseForm(SignOf(neg) + text, neg, form, radix, value, binary);
    assert ['0'] + [] == ['0'];
    ReadZeros(['0'], radix);
  }

  lemma ZeroText(radix: nat, mode: ExpMode)
    requires 2 <= radix <= 36
    ensures Layout(['0'], 1, radix, mode) == ['0'] + [] + if mode.ExpEnabled? then ExponentText(0, radix) else []
  {
    hide ExponentText;
    assert ['0'] + ZeroChars(0) == ['0'];
  }

  /** Free-format printing is exact: whatever js_dtoa prints for a double other than NaN, in any radix and exponent mode, js_atod
      reads back as the same bits; only a zero printed without its sign loses the sign. */
  lemma PrintedReadsBack(a: nat, radix: nat, mode: ExpMode, minusZero: bool, s: seq<char>, b: nat)
    requires a < TWO64 && 2 <= radix <= 36 && a % SIGN_BIT <= INFINITY_BITS
    requires Prints(a, radix, mode, minusZero, s)
    ensures ReadsAs(s, radix, b, if a == SIGN_BIT && !minusZero then 0 else a)
  {
    hide Decode, Assemble, IsInteger, PrintsInteger, PrintsDigits, Layout, Parse, Denoted, Canonical;
    var abs, sign := a % SIGN_BIT, SignText(a, minusZero);
    var neg := sign != [];
    assert sign == SignOf(neg);
    assert a == abs + if a >= SIGN_BIT then SIGN_BIT else 0;
    if abs == INFINITY_BITS {
      InfinityReadsBack(radix, neg, b);
    } else if abs == 0 {
      ZeroReadsBack(radix, mode, neg, b);
    } else {
      DecodeAssemble(abs);
      var m, e := Decode(abs).0, Decode(abs).1;
      var text := s[|sign|..];
      assert s == sign + text;
      if IsInteger(m, e, mode) {
        IntegerReadsBack(m, e, radix, mode, text, neg, b);
      } else {
        DigitsReadBack(m, e, radix, mode, text, neg, b);
      }
    }
  }

  /** NaN is read as NaN exactly in the radixes in which its letters are not digits. */
  lemma NaNReadsBack(a: nat, radix: nat, mode: ExpMode, minusZero: bool, s: seq<char>)
    requires 2 <= radix <= 36 && a % SIGN_BIT > INFINITY_BITS && Prints(a, radix, mode, minusZero, s)
    ensures Parse(s, radix).NotANumber? <==> radix <= 23
  {
    hide Read;
    assert s == "NaN";
    NaNDigits(radix);
    if radix > 23 {
      NoExponent(s, 0, radix);
    }
  }

  lemma NaNDigits(radix: nat)
    requires 2 <= radix <= 36
    ensures DigitEnd("NaN", 0, radix) == if radix > 23 then 3 else 0
  {
    if radix > 23 {
      DigitEndIs("NaN", 0, 3, radix);
    }
  }
}
