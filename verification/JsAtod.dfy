// js_atod as a whole: sign, prefix, digits, exponent, value.
module JsAtod {
  import opened Arithmetic
  import opened Limbs
  import opened Logarithms
  import opened Powers
  import opened Bignums
  import opened PowerScaling
  import opened DigitStrings
  import opened NumberSyntax
  import opened NumberReading
  import opened DoubleBits
  import opened NumberRounding

  // ---------- what a string denotes ----------

  datatype Exponent = Exponent(value: int, binary: bool, end: nat) | BadExponent

  /** The letter before the exponent: e in radix 10; @ elsewhere, or p where digits are at most four bits. */
  predicate ExponentMark(c: char, radix: nat)
  {
    (radix == 10 && (c == 'e' || c == 'E')) ||
    (radix != 10 && (c == '@' || (PowerOfTwo(radix) && Ctz(radix) <= 4 && (c == 'p' || c == 'P'))))
  }

  predicate IsBinaryMark(c: char) { c == 'p' || c == 'P' }

  function SignLength(c: char): nat { if c == '+' || c == '-' then 1 else 0 }

  function ScanExponent(s: seq<char>, p: nat, start: nat, radix: nat): Exponent
  {
    if !ExponentMark(At(s, p), radix) || p <= start then Exponent(0, false, p)
    else
      var d := p + 1 + SignLength(At(s, p + 1));
      if !IsDigit(At(s, d), 10) then BadExponent
      else
        var e := DigitEnd(s, d, 10);
        var v := ReadSlice(s, d, e);
        Exponent(if At(s, p + 1) == '-' then 0 - v else v, IsBinaryMark(At(s, p)), e)
  }

  /** The decimal number in part of the string. */
  function ReadSlice(s: seq<char>, i: nat, j: nat): nat
  {
    if i <= j <= |s| then Read(s[i..j], 10) else 0
  }

  datatype Literal =
    | NotANumber
    | Infinite(neg: bool, end: nat)
    | Number(neg: bool, digits: seq<char>, point: nat, expn: int, binary: bool, radix: nat, end: nat)

  predicate HexPrefix(s: seq<char>, start: nat, radix: nat)
  {
    At(s, start) == '0' && (At(s, start + 1) == 'x' || At(s, start + 1) == 'X') && (radix == 0 || radix == 16)
  }

  const INFINITY_NAME := "Infinity"

  predicate NamesInfinity(s: seq<char>, start: nat)
  {
    At(s, start) != '0' && start + 8 <= |s| && s[start..start + 8] == INFINITY_NAME
  }

  /** The parts of a number, read without options; radix 0 stands for 10, or 16 behind a prefix. */
  function Parse(s: seq<char>, radix0: nat): Literal
  {
    var start := SignLength(At(s, 0));
    var neg := At(s, 0) == '-';
    if NamesInfinity(s, start) then Infinite(neg, start + 8)
    else
      var hex := HexPrefix(s, start, radix0);
      var radix := if hex then 16 else if radix0 == 0 then 10 else radix0;
      var p0 := if hex then start + 2 else start;
      if p0 > |s| || (hex && !IsDigit(At(s, p0), radix)) then NotANumber
      else
        var m := Scan(s, p0, start, radix);
        match ScanExponent(s, m.end, start, radix)
        case BadExponent => NotANumber
        case Exponent(value, binary, end) =>
          if end == start then NotANumber else Number(neg, m.digits, m.point, value, binary, radix, end)
  }

  /** The loop that adds up the exponent stops only for exponents from here on. */
  const EXPONENT_LIMIT := 2147483640

  /** With fewer digits than this, such an exponent decides the result. */
  const DIGIT_LIMIT := 500_000_000

  /** The magnitude read for digits that are not all zero: the nearest double, whatever the exponent; only with very many
      digits an exponent that is cut off may hide what they add up to. */
  ghost predicate Magnitude(a: nat, digits: seq<char>, point: nat, expn: int, binary: bool, radix: nat)
    requires 2 <= radix <= 36
  {
    if |digits| < DIGIT_LIMIT || -EXPONENT_LIMIT < expn < EXPONENT_LIMIT
    then Nearest(a, Numerator(digits, point, expn, binary, radix), Denominator(digits, point, expn, binary, radix))
    else a == if expn < 0 then 0 else INFINITY_BITS
  }

  /** The result for a literal: zero for zero, else the nearest double, with the sign in front. */
  ghost predicate Denoted(lit: Literal, a: nat)
  {
    match lit
    case NotANumber => false
    case Infinite(neg, _) => a == INFINITY_BITS + SignBits(neg)
    case Number(neg, digits, point, expn, binary, radix, _) =>
      2 <= radix <= 36 &&
      (Read(digits, radix) == 0 ==> a == SignBits(neg)) &&
      (Read(digits, radix) > 0 ==>
        a >= SignBits(neg) && Magnitude(a - SignBits(neg), digits, point, expn, binary, radix))
  }

  function SignBits(neg: bool): nat { if neg then SIGN_BIT else 0 }

  // ---------- the exponent ----------

  const INT32_LIMIT := 0x7fff_ffff

  /** The loop over the digits of the exponent; it stops adding them up before 32 bits overflow. */
  method ReadExponentDigits(s: seq<char>, d: nat) returns (expn: nat, overflow: bool, p: nat)
    requires IsDigit(At(s, d), 10)
    ensures p == DigitEnd(s, d, 10) && if overflow then ReadSlice(s, d, p) >= EXPONENT_LIMIT else expn == ReadSlice(s, d, p) < EXPONENT_LIMIT
  {
    hide Read;
    DigitStop(s, d, 10);
    expn := ToDigit(At(s, d));
    overflow := false;
    p := d + 1;
    ghost var e := DigitEnd(s, d, 10);
    OneDigit(s, d);
    while true
      invariant d < p <= e <= |s| && (!overflow ==> expn == ReadSlice(s, d, p) < EXPONENT_LIMIT) && (overflow ==> ReadSlice(s, d, p) >= EXPONENT_LIMIT)
      decreases e - p
    {
      InRun(s, d, p);
      var c := ToDigit(At(s, p));
      if c >= 10 {
        break;
      }
      NextDigit(s, d, p);
      if !overflow {
        if expn > (INT32_LIMIT - 2 - 9) / 10 {
          overflow := true;
        } else {
          expn := expn * 10 + c;
        }
      }
      p := p + 1;
    }
  }

  lemma OneDigit(s: seq<char>, d: nat)
    requires IsDigit(At(s, d), 10)
    ensures d < |s| && d + 1 <= DigitEnd(s, d, 10) <= |s| && ReadSlice(s, d, d + 1) == ToDigit(At(s, d))
  {
    DigitEndBound(s, d, 10);
    DigitEndBound(s, d + 1, 10);
    assert s[d..d + 1] == [] + [s[d]];
    ReadPush([], s[d], 10);
    ReadNothing(10);
  }

  lemma InRun(s: seq<char>, d: nat, p: nat)
    requires d < p <= DigitEnd(s, d, 10) <= |s|
    ensures IsDigit(At(s, p), 10) <==> p < DigitEnd(s, d, 10)
  {
    hide DigitEnd;
    DigitStop(s, d, 10);
    if p < DigitEnd(s, d, 10) {
      DigitRun(s, d, 10, p);
    }
  }

  lemma NextDigit(s: seq<char>, d: nat, p: nat)
    requires d <= p < |s|
    ensures ReadSlice(s, d, p + 1) == ReadSlice(s, d, p) * 10 + ToDigit(At(s, p))
  {
    hide Read;
    assert s[d..p + 1] == s[d..p] + [s[p]];
    ReadPush(s[d..p], s[p], 10);
  }

  /** The exponent part of js_atod. */
  method ReadExponent(s: seq<char>, p0: nat, start: nat, radix: nat) returns (ok: bool, expn: int, binary: bool, overflow: bool, neg: bool, p: nat)
    requires 2 <= radix <= 36
    ensures ok == ScanExponent(s, p0, start, radix).Exponent?
    ensures ok ==> var x := ScanExponent(s, p0, start, radix);
                   p == x.end && binary == x.binary &&
                   if !overflow then expn == x.value && -EXPONENT_LIMIT < expn < EXPONENT_LIMIT
                   else if neg then x.value <= -EXPONENT_LIMIT else x.value >= EXPONENT_LIMIT
  {
    hide DigitEnd, Read, Ctz;
    ok, expn, binary, overflow, neg, p := true, 0, false, false, false, p0;
    if ExponentMark(At(s, p), radix) && p > start {
      binary := IsBinaryMark(At(s, p));
      p := p + 1;
      if At(s, p) == '+' {
        p := p + 1;
      } else if At(s, p) == '-' {
        neg := true;
        p := p + 1;
      }
      if ToDigit(At(s, p)) >= 10 {
        ok := false;
        return;
      }
      expn, overflow, p := ReadExponentDigits(s, p);
      if neg {
        expn := -expn;
      }
    }
  }

  // ---------- js_atod ----------

  lemma NoDigits(digits: seq<char>, radix: nat)
    requires 2 <= radix <= 36 && AllDigits(digits, radix)
    ensures KeptDigits(digits, radix) == 0 <==> Read(digits, radix) == 0
  {
    hide Read;
    ReadSignificant(digits, radix);
    var s := Significant(digits);
    if s == [] {
      ReadNothing(radix);
    } else {
      assert s[..|s|] == s;
      SignificantBounds(digits, radix, |s|);
      PowPositive(radix, |s| - 1);
    }
  }

  lemma ScanDigits(s: seq<char>, p0: nat, start: nat, radix: nat)
    requires start <= p0 <= |s| && radix <= 36
    ensures AllDigits(Scan(s, p0, start, radix).digits, radix)
  {
    var e := DigitEnd(s, p0, radix);
    DigitEndBound(s, p0, radix);
    SliceDigits(s, p0, e, radix);
    if HasDot(s, p0, start, radix) {
      DigitEndBound(s, e + 1, radix);
      SliceDigits(s, e + 1, DigitEnd(s, e + 1, radix), radix);
    }
  }

  lemma SliceDigits(s: seq<char>, i: nat, e: nat, radix: nat)
    requires i <= e <= |s| && e == DigitEnd(s, i, radix)
    ensures AllDigits(s[i..e], radix)
  {
    forall k | 0 <= k < e - i ensures ToDigit(s[i..e][k]) < radix {
      DigitRun(s, i, radix, i + k);
    }
  }

  /** Reads a number; `ok` is false for NaN. */
  method Atod(s: seq<char>, radix0: nat) returns (ok: bool, a: nat, next: nat)
    requires radix0 == 0 || 2 <= radix0 <= 36
    ensures ok == !Parse(s, radix0).NotANumber?
    ensures ok ==> next == Parse(s, radix0).end && Denoted(Parse(s, radix0), a)
  {
    hide DigitEnd, Scan, ScanExponent, Read, Magnitude, Ctz;
    var tmp0 := new Bignum(DBIGNUM_LEN_MAX);
    var neg, p := false, 0;
    if At(s, 0) == '+' {
      p := 1;
    } else if At(s, 0) == '-' {
      neg := true;
      p := 1;
    }
    var start, radix := p, radix0;
    if At(s, p) == '0' {
      if (At(s, p + 1) == 'x' || At(s, p + 1) == 'X') && (radix == 0 || radix == 16) {
        p := p + 2;
        radix := 16;
        if ToDigit(At(s, p)) >= radix {
          return false, 0, p;
        }
      }
    } else if p + 8 <= |s| && s[p..p + 8] == INFINITY_NAME {
      return true, INFINITY_BITS + SignBits(neg), p + 8;
    }
    if radix == 0 {
      radix := 10;
    }
    ok, a, next := ReadNumber(tmp0, s, p, start, radix);
    if ok {
      a := a + SignBits(neg);
    }
  }

  /** js_atod behind sign and prefix. */
  method ReadNumber(tmp0: Bignum, s: seq<char>, p0: nat, start: nat, radix: nat) returns (ok: bool, a: nat, next: nat)
    requires 2 <= radix <= 36 && start <= p0 <= |s| && tmp0.Valid() && tmp0.Normal() && tmp0.Num() == 0 && tmp0.len == 1
    requires tmp0.tab.Length == DBIGNUM_LEN_MAX
    modifies tmp0`len, tmp0.tab
    ensures var m := Scan(s, p0, start, radix); var x := ScanExponent(s, m.end, start, radix);
            ok == (x.Exponent? && x.end != start) && (ok ==> next == x.end && Rounded(m, x, radix, a))
  {
    hide DigitEnd, Scan, ScanExponent, Read, Nearest, Numerator, Denominator, Ctz, LeadingZeros, Value;
    var p, sigPos, digitCount, dotPos, extra := ReadMantissa(tmp0, s, p0, start, radix);
    ghost var m := Scan(s, p0, start, radix);
    ScanDigits(s, p0, start, radix);
    NoDigits(m.digits, radix);
    var expn, binary, overflow, expNeg;
    ok, expn, binary, overflow, expNeg, next := ReadExponent(s, p, start, radix);
    a := 0;
    if !ok {
      return;
    }
    if next == start {
      ok := false;
      return;
    }
    if digitCount == 0 {
      return;
    }
    if overflow {
      a := if expNeg then 0 else INFINITY_BITS;
      LongExponent(s, p0, p, start, radix);
    } else if PowerOfTwo(radix) {
      a := BinaryMagnitude(tmp0, m.digits, radix, dotPos, sigPos, digitCount, extra, expn, binary);
    } else {
      NoBinary(s, p, start, radix);
      a := OtherMagnitude(tmp0, m.digits, radix, dotPos, sigPos, digitCount, extra, expn);
    }
  }

  /** The value of mantissa and exponent, without the sign. */
  ghost predicate Rounded(m: Mantissa, x: Exponent, radix: nat, a: nat)
    requires 2 <= radix <= 36
  {
    x.Exponent? && (Read(m.digits, radix) == 0 ==> a == 0) &&
    (Read(m.digits, radix) > 0 ==> Magnitude(a, m.digits, m.point, x.value, x.binary, radix))
  }

  lemma NoBinary(s: seq<char>, p: nat, start: nat, radix: nat)
    requires 2 <= radix <= 36
    ensures var x := ScanExponent(s, p, start, radix); x.Exponent? && x.binary ==> PowerOfTwo(radix) && Ctz(radix) <= 4
  {
    hide Ctz;
  }

  /** An exponent that is cut off lies beyond the limit of overflow or underflow. */
  lemma LongExponent(s: seq<char>, p0: nat, p: nat, start: nat, radix: nat)
    requires 2 <= radix <= 36 && start <= p0 <= |s| && p == Scan(s, p0, start, radix).end
    ensures var m, x := Scan(s, p0, start, radix), ScanExponent(s, p, start, radix);
            x.Exponent? && Read(m.digits, radix) > 0 && |m.digits| < DIGIT_LIMIT ==>
              (x.value >= EXPONENT_LIMIT ==>
                Nearest(INFINITY_BITS, Numerator(m.digits, m.point, x.value, x.binary, radix), Denominator(m.digits, m.point, x.value, x.binary, radix))) &&
              (x.value <= -EXPONENT_LIMIT ==>
                Nearest(0, Numerator(m.digits, m.point, x.value, x.binary, radix), Denominator(m.digits, m.point, x.value, x.binary, radix)))
  {
    hide DigitEnd, Scan, ScanExponent, Read, Nearest, Numerator, Denominator, Ctz;
    var m, x := Scan(s, p0, start, radix), ScanExponent(s, p, start, radix);
    ScanDigits(s, p0, start, radix);
    ScanPoint(s, p0, start, radix);
    NoBinary(s, p, start, radix);
    if x.Exponent? && Read(m.digits, radix) > 0 && |m.digits| < DIGIT_LIMIT {
      if x.value >= EXPONENT_LIMIT || x.value <= -EXPONENT_LIMIT {
        if PowerOfTwo(radix) {
          FarBinary(m.digits, m.point, x.value, x.binary, radix);
        } else {
          FarOther(m.digits, m.point, x.value, radix);
        }
      }
    }
  }

  lemma ScanPoint(s: seq<char>, p0: nat, start: nat, radix: nat)
    requires start <= p0 <= |s| && radix <= 36
    ensures Scan(s, p0, start, radix).point <= |Scan(s, p0, start, radix).digits|
  {
    hide DigitEnd;
    var e := DigitEnd(s, p0, radix);
    DigitEndBound(s, p0, radix);
    if HasDot(s, p0, start, radix) {
      DigitEndBound(s, e + 1, radix);
    }
  }

  /** Where the result is certain from the exponent alone. */
  ghost predicate Decided(digits: seq<char>, point: nat, expn: int, binary: bool, radix: nat)
    requires 2 <= radix <= 36
  {
    Nearest(if expn > 0 then INFINITY_BITS else 0, Numerator(digits, point, expn, binary, radix), Denominator(digits, point, expn, binary, radix))
  }

  lemma FarOther(digits: seq<char>, point: nat, expn: int, radix: nat)
    requires 2 <= radix <= 36 && !PowerOfTwo(radix) && AllDigits(digits, radix) && Read(digits, radix) > 0
    requires point <= |digits| < DIGIT_LIMIT && (expn >= EXPONENT_LIMIT || expn <= -EXPONENT_LIMIT)
    ensures Decided(digits, point, expn, false, radix)
  {
    hide Read, Pow, MaxExponent, MinExponent, LeadingZeros, AtodMaxDigits, KeptDigits, Numerator, Denominator, Nearest;
    var z, k := LeadingZeros(digits), KeptDigits(digits, radix);
    var v := KeptFacts(digits, radix);
    var f := expn - (z + k - point);
    OtherLiteral(digits, point, expn, radix, f, v);
    FarRange(v, radix, k, f, expn);
  }

  lemma KeptFacts(digits: seq<char>, radix: nat) returns (v: nat)
    requires 2 <= radix <= 36 && AllDigits(digits, radix) && Read(digits, radix) > 0
    ensures var z, k := LeadingZeros(digits), KeptDigits(digits, radix);
            0 < k && z + k <= |digits| && v == Read(digits[..z + k], radix) && Pow(radix, k - 1) <= v < Pow(radix, k)
  {
    hide Read, Pow;
    var k := KeptDigits(digits, radix);
    NoDigits(digits, radix);
    SignificantBounds(digits, radix, k);
    CountedRead(digits, radix, k);
    v := Read(digits[..LeadingZeros(digits) + k], radix);
  }

  lemma FarRange(v: nat, radix: nat, k: nat, f: int, expn: int)
    requires 2 <= radix <= 36 && k > 0 && Pow(radix, k - 1) <= v < Pow(radix, k)
    requires expn > 0 ==> f + k - 1 >= 1024
    requires expn <= 0 ==> f + k + 1075 <= 0
    ensures Nearest(if expn > 0 then INFINITY_BITS else 0, v * Pow(radix, Up(f)), Pow(radix, Up(-f)))
  {
    hide Pow, MaxExponent, MinExponent;
    ExponentsBound(radix);
    SmallTables(radix);
    if expn > 0 {
      Overflows(v, radix, k - 1, f, MaxExponent(radix));
    } else {
      Underflows(v, radix, k, f, MinExponent(radix));
    }
  }

  lemma SmallTables(radix: nat)
    requires 2 <= radix <= 36
    ensures MaxExponent(radix) <= 1024 && MinExponent(radix) <= 1075
  {
  }

  lemma FarBinary(digits: seq<char>, point: nat, expn: int, binary: bool, radix: nat)
    requires 2 <= radix <= 36 && PowerOfTwo(radix) && (binary ==> Ctz(radix) <= 4) && AllDigits(digits, radix) && Read(digits, radix) > 0
    requires point <= |digits| < DIGIT_LIMIT && (expn >= EXPONENT_LIMIT || expn <= -EXPONENT_LIMIT)
    ensures Decided(digits, point, expn, binary, radix)
  {
    hide Read, Pow, LeadingZeros, AtodMaxDigits, Ctz, BoundsOf, Scaling;
    var s, k, v := |Significant(digits)|, Ctz(radix), Read(digits, radix);
    RadixParts(radix);
    NoDigits(digits, radix);
    BinarySize(digits, radix, k, s);
    var b := Scaling(digits, point, expn, binary, radix);
    BinaryLiteral(digits, point, expn, binary, radix, v, b);
    BinaryScaling(digits, point, expn, binary, radix);
    FarScaling(k, expn, binary, |digits| - point, s, b, |digits|);
    if expn > 0 {
      Overflows(v, 2, k * (s - 1), b, 1024);
    } else {
      Underflows(v, 2, k * s, b, 1075);
    }
  }

  lemma BinaryScaling(digits: seq<char>, point: nat, expn: int, binary: bool, radix: nat)
    requires 2 <= radix <= 36 && PowerOfTwo(radix)
    ensures Scaling(digits, point, expn, binary, radix) == (if binary then expn else expn * Ctz(radix)) - (|digits| - point) * Ctz(radix)
    ensures 1 <= Ctz(radix) <= 5
  {
  }

  lemma FarScaling(k: nat, expn: int, binary: bool, frac: nat, s: nat, b: int, n: nat)
    requires 1 <= k <= 5 && (binary ==> k <= 4) && 0 < s <= n < DIGIT_LIMIT && frac <= n && (expn >= EXPONENT_LIMIT || expn <= -EXPONENT_LIMIT)
    requires b == (if binary then expn else expn * k) - frac * k
    ensures expn > 0 ==> b + k * (s - 1) >= 1024
    ensures expn < 0 ==> b + k * s + 1075 <= 0
  {
  }
}
