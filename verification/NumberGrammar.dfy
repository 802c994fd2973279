// What js_atod takes for a number, part by part, in every form that it allows.
module NumberGrammar {
  import opened Arithmetic
  import opened Logarithms
  import opened DigitStrings
  import opened NumberSyntax
  import opened NumberRounding
  import opened JsAtod

  datatype Power = NoPower | Power(mark: char, sign: seq<char>, digits: seq<char>)

  /** A number as it is written. */
  datatype Numeral = Numeral(sign: seq<char>, prefix: seq<char>, whole: seq<char>, dot: bool, fraction: seq<char>, power: Power)

  function PowerText(x: Power): seq<char>
  {
    match x
    case NoPower => []
    case Power(mark, sign, digits) => [mark] + (sign + digits)
  }

  /** Everything behind sign and prefix. */
  function BodyText(n: Numeral): seq<char>
  {
    n.whole + ((if n.dot then ['.'] + n.fraction else []) + PowerText(n.power))
  }

  function NumeralText(n: Numeral): seq<char> { n.sign + (n.prefix + BodyText(n)) }

  predicate IsSign(t: seq<char>) { t == [] || t == ['+'] || t == ['-'] }

  /** `c` is the digit `d`, in either case. */
  predicate DigitIs(c: char, d: nat)
  {
    (d < 10 && c == '0' + d as char) || (10 <= d < 36 && (c == 'a' + (d - 10) as char || c == 'A' + (d - 10) as char))
  }

  predicate IsDigitChar(c: char, radix: nat) { exists d: nat | d < radix :: DigitIs(c, d) }

  predicate DigitsOf(s: seq<char>, radix: nat) { forall i :: 0 <= i < |s| ==> IsDigitChar(s[i], radix) }

  /** The letters in front of an exponent: of 10, of the radix, and of 2. */
  predicate MarkFor(c: char, radix: nat)
  {
    if radix == 10 then c == 'e' || c == 'E'
    else c == '@' || ((radix == 2 || radix == 4 || radix == 8 || radix == 16) && (c == 'p' || c == 'P'))
  }

  predicate Wellformed(n: Numeral, radix0: nat, radix: nat)
  {
    IsSign(n.sign) && (n.prefix == [] || ((n.prefix == "0x" || n.prefix == "0X") && n.whole != [] && (radix0 == 0 || radix0 == 16))) &&
    radix == (if n.prefix != [] then 16 else if radix0 == 0 then 10 else radix0) && 2 <= radix <= 36 &&
    DigitsOf(n.whole, radix) && DigitsOf(n.fraction, radix) && (!n.dot ==> n.fraction == []) && (n.whole != [] || n.fraction != []) &&
    (n.power.Power? ==>
      MarkFor(n.power.mark, radix) && IsSign(n.power.sign) && n.power.digits != [] && DigitsOf(n.power.digits, 10))
  }

  /** What comes next does not belong to the number. */
  predicate Ends(n: Numeral, rest: seq<char>, radix0: nat, radix: nat)
  {
    !(INFINITY_NAME <= n.prefix + BodyText(n) + rest) &&
    (rest != [] ==>
      if n.power.Power? then !IsDigitChar(rest[0], 10)
      else !IsDigitChar(rest[0], radix) && !MarkFor(rest[0], radix) && (!n.dot ==> rest[0] != '.') &&
           (n.whole == "0" && !n.dot && (radix0 == 0 || radix0 == 16) ==> rest[0] != 'x' && rest[0] != 'X'))
  }

  function PowerValue(x: Power): int
  {
    match x
    case NoPower => 0
    case Power(_, sign, digits) => if sign == ['-'] then 0 - Read(digits, 10) else Read(digits, 10)
  }

  predicate IsBinary(x: Power) { x.Power? && (x.mark == 'p' || x.mark == 'P') }

  // ---------- characters ----------

  /** to_digit is the value of a digit in either case, and 36 for anything else. */
  lemma ToDigitMeaning(c: char, d: nat)
    ensures d < 36 ==> (ToDigit(c) == d <==> DigitIs(c, d))
    ensures ToDigit(c) <= 36
  {
  }

  lemma IsDigitMeaning(c: char, radix: nat)
    requires radix <= 36
    ensures IsDigit(c, radix) <==> IsDigitChar(c, radix)
  {
    hide DigitIs, ToDigit;
    if IsDigit(c, radix) {
      ToDigitMeaning(c, ToDigit(c));
    } else if d: nat :| d < radix && DigitIs(c, d) {
      ToDigitMeaning(c, d);
    }
  }

  lemma DigitsOfMeaning(s: seq<char>, radix: nat)
    requires radix <= 36
    ensures DigitsOf(s, radix) <==> AllDigits(s, radix)
  {
    hide IsDigitChar, ToDigit;
    forall i | 0 <= i < |s| ensures IsDigit(s[i], radix) <==> IsDigitChar(s[i], radix) {
      IsDigitMeaning(s[i], radix);
    }
  }

  lemma MarkMeaning(c: char, radix: nat)
    requires 2 <= radix <= 36
    ensures MarkFor(c, radix) <==> ExponentMark(c, radix)
  {
    SmallRadixes(radix);
  }

  lemma SmallRadixes(radix: nat)
    requires 2 <= radix <= 36
    ensures PowerOfTwo(radix) && Ctz(radix) <= 4 <==> radix == 2 || radix == 4 || radix == 8 || radix == 16
  {
  }

  /** None of the marks is a digit where it is a mark. */
  lemma MarkNoDigit(c: char, radix: nat)
    requires 2 <= radix <= 36 && MarkFor(c, radix)
    ensures !IsDigit(c, radix) && c != '.' && c != 'x' && c != 'X'
  {
  }

  lemma DigitNoSign(c: char, radix: nat)
    requires radix <= 36 && IsDigit(c, radix)
    ensures c != '+' && c != '-' && c != '.' && (radix <= 16 ==> c != 'x' && c != 'X')
  {
  }

  lemma NoDigitChars(radix: nat)
    requires radix <= 36
    ensures !IsDigit('.', radix) && !IsDigit('\0', radix) && !IsDigit('+', radix) && !IsDigit('-', radix)
  {
  }

  // ---------- reading a numeral ----------

  /** What stands behind the beginning of a string. */
  lemma Behind(s: seq<char>, i: nat, a: seq<char>, t: seq<char>)
    requires i <= |s| && s[i..] == a + t
    ensures i + |a| <= |s| && s[i + |a|..] == t && s[i..i + |a|] == a && At(s, i) == At(a + t, 0) && At(s, i + |a|) == At(t, 0)
  {
    assert s[i + |a|..] == s[i..][|a|..];
    assert s[i..i + |a|] == s[i..][..|a|];
    if t != [] {
      assert s[i + |a|] == s[i + |a|..][0];
    }
    if a + t != [] {
      assert s[i] == s[i..][0];
    }
  }

  /** Digits in the middle of a string. */
  lemma DigitsEndAt(s: seq<char>, i: nat, d: seq<char>, rest: seq<char>, radix: nat)
    requires i <= |s| && s[i..] == d + rest && AllDigits(d, radix) && !IsDigit(At(rest, 0), radix)
    ensures DigitEnd(s, i, radix) == i + |d| && i + |d| <= |s| && s[i..i + |d|] == d && s[i + |d|..] == rest
    ensures At(s, i + |d|) == At(rest, 0)
  {
    hide DigitEnd, IsDigit;
    Behind(s, i, d, rest);
    DigitEndIs(s, i, i + |d|, radix);
  }

  /** Digits, a point and more digits. */
  lemma ScanNumeral(s: seq<char>, p0: nat, start: nat, whole: seq<char>, dot: bool, fraction: seq<char>, rest: seq<char>, radix: nat)
    requires start <= p0 <= |s| && radix <= 36 && s[p0..] == whole + ((if dot then ['.'] + fraction else []) + rest)
    requires AllDigits(whole, radix) && AllDigits(fraction, radix) && (!dot ==> fraction == []) && (whole != [] || fraction != [])
    requires !IsDigit(At(rest, 0), radix) && (!dot ==> At(rest, 0) != '.')
    ensures var m := Scan(s, p0, start, radix);
            m.digits == whole + fraction && m.point == |whole| && start < m.end <= |s| && s[m.end..] == rest
  {
    hide DigitEnd, Scan, IsDigit, At;
    if dot {
      assert (['.'] + fraction) + rest == ['.'] + (fraction + rest);
      DottedNumeral(s, p0, start, whole, fraction, rest, radix);
    } else {
      assert [] + rest == rest;
      DigitsEndAt(s, p0, whole, rest, radix);
      ScanPlain(s, p0, start, radix, p0 + |whole|);
      assert whole + fraction == whole;
    }
  }

  lemma DottedNumeral(s: seq<char>, p0: nat, start: nat, whole: seq<char>, fraction: seq<char>, rest: seq<char>, radix: nat)
    requires start <= p0 <= |s| && radix <= 36 && s[p0..] == whole + (['.'] + (fraction + rest))
    requires AllDigits(whole, radix) && AllDigits(fraction, radix) && (whole != [] || fraction != []) && !IsDigit(At(rest, 0), radix)
    ensures var m := Scan(s, p0, start, radix);
            m.digits == whole + fraction && m.point == |whole| && start < m.end <= |s| && s[m.end..] == rest
  {
    hide DigitEnd, Scan, IsDigit;
    NoDigitChars(radix);
    var e, t := p0 + |whole|, fraction + rest;
    DigitsEndAt(s, p0, whole, ['.'] + t, radix);
    Behind(s, e, ['.'], t);
    DigitsEndAt(s, e + 1, fraction, rest, radix);
    if whole == [] {
      assert At(s, e + 1) == fraction[0];
      assert IsDigit(fraction[0], radix) by {
        FirstIsDigit(fraction, radix);
      }
    }
    ScanDotted(s, p0, start, radix, e, e + 1 + |fraction|);
  }

  lemma FirstIsDigit(d: seq<char>, radix: nat)
    requires d != [] && AllDigits(d, radix)
    ensures IsDigit(d[0], radix)
  {
  }

  lemma ScanDotted(s: seq<char>, p0: nat, start: nat, radix: nat, e: nat, f: nat)
    requires p0 <= |s| && DigitEnd(s, p0, radix) == e && At(s, e) == '.' && DigitEnd(s, e + 1, radix) == f <= |s|
    requires e > start || IsDigit(At(s, e + 1), radix)
    ensures Scan(s, p0, start, radix) == Mantissa(s[p0..e] + s[e + 1..f], e - p0, f)
  {
    hide DigitEnd;
  }

  lemma ScanPlain(s: seq<char>, p0: nat, start: nat, radix: nat, e: nat)
    requires p0 <= |s| && DigitEnd(s, p0, radix) == e && At(s, e) != '.'
    ensures Scan(s, p0, start, radix) == Mantissa(s[p0..e], e - p0, e)
  {
    hide DigitEnd;
  }

  lemma ScanPower(s: seq<char>, p: nat, start: nat, x: Power, rest: seq<char>, radix: nat)
    requires 2 <= radix <= 36 && start < p <= |s| && s[p..] == PowerText(x) + rest
    requires x.Power? ==> MarkFor(x.mark, radix) && IsSign(x.sign) && x.digits != [] && AllDigits(x.digits, 10) && !IsDigit(At(rest, 0), 10)
    requires x.NoPower? && rest != [] ==> !MarkFor(rest[0], radix)
    ensures ScanExponent(s, p, start, radix) == Exponent(PowerValue(x), IsBinary(x), |s| - |rest|)
  {
    hide DigitEnd, Read, IsDigit, ExponentMark;
    match x
    case NoPower =>
      assert [] + rest == rest;
      Behind(s, p, [], rest);
      MarkMeaning(At(s, p), radix);
      NulNoMark(radix);
    case Power(mark, sign, digits) =>
      MarkMeaning(mark, radix);
      SignedPower(s, p, start, mark, sign, digits, rest, radix);
  }

  lemma NulNoMark(radix: nat)
    ensures !MarkFor('\0', radix)
  {
  }

  lemma SignedPower(s: seq<char>, p: nat, start: nat, mark: char, sign: seq<char>, digits: seq<char>, rest: seq<char>, radix: nat)
    requires start < p <= |s| && s[p..] == [mark] + (sign + digits) + rest && ExponentMark(mark, radix)
    requires IsSign(sign) && digits != [] && AllDigits(digits, 10) && !IsDigit(At(rest, 0), 10)
    ensures ScanExponent(s, p, start, radix) ==
            Exponent(if sign == ['-'] then 0 - Read(digits, 10) else Read(digits, 10), IsBinaryMark(mark), |s| - |rest|)
  {
    hide DigitEnd, Read, IsDigit, ExponentMark, AllDigits, At;
    var tail, d := digits + rest, p + 1 + |sign|;
    assert [mark] + (sign + digits) + rest == [mark] + (sign + tail);
    Behind(s, p, [mark], sign + tail);
    Behind(s, p + 1, sign, tail);
    SignAndDigits(mark, sign, digits, rest);
    assert sign + digits + rest == sign + tail;
    DigitsEndAt(s, d, digits, rest, 10);
    PowerScan(s, p, start, radix, d, d + |digits|);
  }

  lemma SignAndDigits(mark: char, sign: seq<char>, digits: seq<char>, rest: seq<char>)
    requires IsSign(sign) && digits != [] && AllDigits(digits, 10)
    ensures At([mark] + (sign + (digits + rest)), 0) == mark
    ensures SignLength(At(sign + (digits + rest), 0)) == |sign| && (At(sign + (digits + rest), 0) == '-' <==> sign == ['-'])
    ensures IsDigit(At(digits + rest, 0), 10)
  {
    hide IsDigit, AllDigits;
    FirstIsDigit(digits, 10);
    DigitNoSign(digits[0], 10);
    assert (digits + rest)[0] == digits[0];
    if sign == [] {
      assert sign + (digits + rest) == digits + rest;
    } else {
      assert (sign + (digits + rest))[0] == sign[0];
    }
  }

  lemma PowerScan(s: seq<char>, p: nat, start: nat, radix: nat, d: nat, e: nat)
    requires ExponentMark(At(s, p), radix) && p > start && d == p + 1 + SignLength(At(s, p + 1)) && IsDigit(At(s, d), 10)
    requires e == DigitEnd(s, d, 10) && d <= e <= |s|
    ensures ScanExponent(s, p, start, radix) ==
            Exponent(if At(s, p + 1) == '-' then 0 - Read(s[d..e], 10) else Read(s[d..e], 10), IsBinaryMark(At(s, p)), e)
  {
    hide DigitEnd, Read, IsDigit, ExponentMark;
  }

  /** The first characters tell sign and prefix. */
  lemma NumeralStart(n: Numeral, rest: seq<char>, radix0: nat, radix: nat)
    requires Wellformed(n, radix0, radix) && Ends(n, rest, radix0, radix)
    ensures var s, start := NumeralText(n) + rest, |n.sign|;
            SignLength(At(s, 0)) == start && (At(s, 0) == '-') == (n.sign == ['-']) && !NamesInfinity(s, start) &&
            HexPrefix(s, start, radix0) == (n.prefix != []) && s[start + |n.prefix|..] == BodyText(n) + rest
  {
    hide IsDigitChar, DigitsOf, MarkFor, PowerText, BodyText, NamesInfinity, HexPrefix, At;
    var s, start, body := NumeralText(n) + rest, |n.sign|, BodyText(n) + rest;
    BodyFirst(n, radix0, radix);
    SignAt(n.sign, n.prefix, BodyText(n), rest);
    NumeralSuffixes(n, rest);
    NoName(s, start, n.prefix + body);
    if n.prefix == [] {
      NoHexPrefix(n, rest, radix0, radix, s);
    } else {
      HexPrefixAt(s, start, n.prefix, body, radix0);
    }
  }

  lemma NumeralSuffixes(n: Numeral, rest: seq<char>)
    ensures var s, start, body := NumeralText(n) + rest, |n.sign|, BodyText(n) + rest;
            start + |n.prefix| <= |s| && s == n.sign + (n.prefix + body) && s[start..] == n.prefix + body && s[start + |n.prefix|..] == body
    ensures n.prefix + BodyText(n) + rest == n.prefix + (BodyText(n) + rest)
    ensures n.prefix == [] ==> n.prefix + (BodyText(n) + rest) == BodyText(n) + rest
  {
    hide BodyText;
    var s, body := NumeralText(n) + rest, BodyText(n) + rest;
    assert s == n.sign + (n.prefix + body);
  }

  lemma SignAt(sign: seq<char>, prefix: seq<char>, body: seq<char>, rest: seq<char>)
    requires IsSign(sign) && (prefix == [] || prefix == "0x" || prefix == "0X") && body != [] && body[0] != '+' && body[0] != '-'
    ensures var c := At(sign + (prefix + (body + rest)), 0); SignLength(c) == |sign| && (c == '-' <==> sign == ['-'])
  {
    var t := prefix + (body + rest);
    assert t[0] == if prefix == [] then body[0] else '0';
    if sign == [] {
      assert sign + t == t;
    } else {
      assert (sign + t)[0] == sign[0];
    }
  }

  lemma NoName(s: seq<char>, start: nat, t: seq<char>)
    requires start <= |s| && s[start..] == t && !(INFINITY_NAME <= t)
    ensures !NamesInfinity(s, start)
  {
    if start + 8 <= |s| {
      assert s[start..start + 8] == t[..8];
    }
  }

  lemma HexPrefixAt(s: seq<char>, start: nat, prefix: seq<char>, body: seq<char>, radix0: nat)
    requires start <= |s| && s[start..] == prefix + body && (prefix == "0x" || prefix == "0X") && (radix0 == 0 || radix0 == 16)
    ensures HexPrefix(s, start, radix0)
  {
    assert s[start] == s[start..][0] && s[start + 1] == s[start..][1];
  }

  lemma BodyFirst(n: Numeral, radix0: nat, radix: nat)
    requires Wellformed(n, radix0, radix)
    ensures BodyText(n) != [] && BodyText(n)[0] != '+' && BodyText(n)[0] != '-'
    ensures BodyText(n)[0] == '0' ==> n.whole != []
  {
    hide IsDigitChar, MarkFor, PowerText, DigitsOf;
    DigitsOfMeaning(n.whole, radix);
    if n.whole != [] {
      assert BodyText(n)[0] == n.whole[0];
      DigitNoSign(n.whole[0], radix);
    } else {
      assert BodyText(n)[0] == '.';
    }
  }

  lemma NoHexPrefix(n: Numeral, rest: seq<char>, radix0: nat, radix: nat, s: seq<char>)
    requires Wellformed(n, radix0, radix) && Ends(n, rest, radix0, radix) && n.prefix == []
    requires |n.sign| <= |s| && s[|n.sign|..] == BodyText(n) + rest
    ensures !HexPrefix(s, |n.sign|, radix0)
  {
    hide IsDigitChar, DigitsOf;
    var start, t := |n.sign|, BodyText(n) + rest;
    BodyFirst(n, radix0, radix);
    assert s[start] == t[0];
    if radix0 == 0 || radix0 == 16 {
      if t[0] == '0' && |t| > 1 {
        assert s[start + 1] == t[1];
        DigitsOfMeaning(n.whole, radix);
        if |n.whole| > 1 {
          assert t[1] == n.whole[1];
          DigitNoSign(t[1], radix);
        } else if n.dot {
          assert t[1] == '.';
        } else if n.power.Power? {
          assert t[1] == n.power.mark;
          MarkNoDigit(t[1], radix);
        } else {
          assert BodyText(n) == n.whole;
          assert t[1] == rest[0];
        }
      }
    }
  }

  /** Every numeral is read part by part: sign, digits, the place of the point, exponent, and where it ends. */
  lemma ParseNumeral(n: Numeral, rest: seq<char>, radix0: nat, radix: nat)
    requires Wellformed(n, radix0, radix) && Ends(n, rest, radix0, radix)
    ensures Parse(NumeralText(n) + rest, radix0) ==
            Number(n.sign == ['-'], n.whole + n.fraction, |n.whole|, PowerValue(n.power), IsBinary(n.power), radix, |NumeralText(n)|)
  {
    hide IsDigitChar, DigitsOf, DigitEnd, Scan, ScanExponent, Read, MarkFor, HexPrefix, NamesInfinity, IsDigit, Parse,
         NumeralText, BodyText, PowerText, Ends, At, PowerValue;
    var s, behind := NumeralText(n) + rest, PowerText(n.power) + rest;
    var start := |n.sign|;
    var p0 := start + |n.prefix|;
    NumeralStart(n, rest, radix0, radix);
    DigitsOfMeaning(n.whole, radix);
    DigitsOfMeaning(n.fraction, radix);
    NumeralBehind(n, rest, radix0, radix);
    BodyParts(n, rest);
    NumeralLength(n, rest);
    ScanNumeral(s, p0, start, n.whole, n.dot, n.fraction, behind, radix);
    var m := Scan(s, p0, start, radix);
    ScanPower(s, m.end, start, n.power, rest, radix);
    if n.prefix != [] {
      Behind(s, p0, n.whole, (if n.dot then ['.'] + n.fraction else []) + behind);
      FirstIsDigit(n.whole, radix);
      FirstAt(n.whole, (if n.dot then ['.'] + n.fraction else []) + behind);
    }
    ParseParts(s, n.sign, n.prefix, radix0, radix, m, PowerValue(n.power), IsBinary(n.power), |NumeralText(n)|);
  }

  lemma FirstAt(a: seq<char>, t: seq<char>)
    requires a != []
    ensures At(a + t, 0) == a[0]
  {
  }

  lemma BodyParts(n: Numeral, rest: seq<char>)
    ensures BodyText(n) + rest == n.whole + ((if n.dot then ['.'] + n.fraction else []) + (PowerText(n.power) + rest))
  {
    hide PowerText;
    var middle := if n.dot then ['.'] + n.fraction else [];
    assert n.whole + (middle + PowerText(n.power)) + rest == n.whole + (middle + (PowerText(n.power) + rest));
  }

  lemma NumeralLength(n: Numeral, rest: seq<char>)
    requires n.whole != [] || n.fraction != []
    requires !n.dot ==> n.fraction == []
    ensures |n.sign| + |n.prefix| < |NumeralText(n)| == |NumeralText(n) + rest| - |rest|
  {
  }

  lemma ParseParts(s: seq<char>, sign: seq<char>, prefix: seq<char>, radix0: nat, radix: nat, m: Mantissa, value: int, binary: bool, end: nat)
    requires SignLength(At(s, 0)) == |sign| && (At(s, 0) == '-') == (sign == ['-']) && !NamesInfinity(s, |sign|)
    requires HexPrefix(s, |sign|, radix0) == (prefix != []) && (prefix == [] || |prefix| == 2)
    requires radix == if prefix != [] then 16 else if radix0 == 0 then 10 else radix0
    requires |sign| + |prefix| <= |s| && (prefix != [] ==> IsDigit(At(s, |sign| + 2), radix))
    requires m == Scan(s, |sign| + |prefix|, |sign|, radix) && ScanExponent(s, m.end, |sign|, radix) == Exponent(value, binary, end) && end > |sign|
    ensures Parse(s, radix0) == Number(sign == ['-'], m.digits, m.point, value, binary, radix, end)
  {
    hide Scan, ScanExponent, HexPrefix, NamesInfinity, IsDigit, At;
  }

  lemma NumeralBehind(n: Numeral, rest: seq<char>, radix0: nat, radix: nat)
    requires Wellformed(n, radix0, radix) && Ends(n, rest, radix0, radix)
    ensures var behind := PowerText(n.power) + rest;
            !IsDigit(At(behind, 0), radix) && (!n.dot ==> At(behind, 0) != '.')
    ensures n.power.Power? ==> AllDigits(n.power.digits, 10) && !IsDigit(At(rest, 0), 10)
    ensures n.power.NoPower? && rest != [] ==> !MarkFor(rest[0], radix)
  {
    hide IsDigitChar, DigitsOf, MarkFor, BodyText;
    NoDigitChars(radix);
    NoDigitChars(10);
    match n.power
    case NoPower =>
      assert [] + rest == rest;
      if rest != [] {
        IsDigitMeaning(rest[0], radix);
      }
    case Power(mark, sign, digits) =>
      MarkNoDigit(mark, radix);
      DigitsOfMeaning(digits, 10);
      if rest != [] {
        IsDigitMeaning(rest[0], 10);
      }
  }

  /** Infinity goes by its name alone. */
  lemma ParseInfinity(sign: seq<char>, rest: seq<char>, radix0: nat)
    requires IsSign(sign)
    ensures Parse(sign + INFINITY_NAME + rest, radix0) == Infinite(sign == ['-'], |sign| + 8)
  {
    hide Scan, ScanExponent;
    var s := sign + INFINITY_NAME + rest;
    var start := |sign|;
    assert s[start..start + 8] == INFINITY_NAME;
    assert s[start] == INFINITY_NAME[0] == 'I';
    assert At(s, 0) == if sign == [] then 'I' else sign[0];
  }
}
