// From the digits read by js_atod to the bits of a double: the shortcuts, the exact cases and the rounded ones.
module DoubleBits {
  import opened Arithmetic
  import opened Rounding
  import opened PowerScaling
  import opened Binary64

  const INFINITY_BITS := 0x7ff0_0000_0000_0000
  const SIGN_BIT := 0x8000_0000_0000_0000

  /** The bits of a double from its mantissa and exponent, as js_atod puts them together. */
  function Assemble(m: nat, e: int): (a: nat)
  {
    PowPositive(2, Up(-e - 1021));
    if m == 0 then 0
    else if e > 1024 then INFINITY_BITS
    else if e < -1073 then 0
    else if e < -1021 then m / Pow(2, Up(-e - 1021))
    else (e + 1022) * TWO52 + m % TWO52
  }

  /** `a` is the double nearest to `x / y` (ties to even): infinity from 2^1024 on, zero up to 2^-1075. */
  ghost predicate Nearest(a: nat, x: nat, y: nat)
  {
    (x >= y * Pow(2, 1024) && a == INFINITY_BITS) || (x * Pow(2, 1075) <= y && a == 0) ||
    exists m: nat, e :: IsDouble(m, e, x, y, NearestEven) && a == Assemble(m, e)
  }

  /** A number in a binade lies between its bounds. */
  lemma BinadeBounds(x: nat, y: nat, e: int)
    requires y > 0 && InBinade(x, y, e)
    ensures Scale(y, e - 1) <= Scale(x, 1 - e) && Scale(x, -e) < Scale(y, e)
  {
    hide Pow;
    assert -(1 - e) == e - 1;
    if e >= 1 {
      ScaleTwice(y, e - 1);
      ScaleZero(x, 1 - e);
      ScaleZero(x, -e);
    } else {
      ScaleTwice(x, -e);
      ScaleZero(y, e - 1);
      ScaleZero(y, e);
    }
  }

  lemma ScaleTwice(x: nat, k: nat)
    ensures Scale(x, k + 1) == 2 * Scale(x, k)
  {
    PowAdd(2, k, 1);
    PowOne(2);
    Assoc(x, Pow(2, k), 2);
  }

  /** Numbers whose rounding is a finite double other than zero are in neither of the outer ranges. */
  lemma FiniteRange(m: nat, e: int, x: nat, y: nat)
    requires y > 0 && m > 0 && e <= 1024 && IsDouble(m, e, x, y, NearestEven)
    ensures x < y * Pow(2, 1024) && y < x * Pow(2, 1075)
  {
    hide Pow, InBinade, RoundsTo, Represents, Precision;
    var q: nat, b :| RoundsInBinade(q, b, x, y, NearestEven) && Represents(m, e, q, b);
    BelowTop(m, e, q, b, x, y);
    AboveBottom(m, e, q, b, x, y);
  }

  lemma BelowTop(m: nat, e: int, q: nat, b: int, x: nat, y: nat)
    requires y > 0 && m > 0 && e <= 1024 && RoundsInBinade(q, b, x, y, NearestEven) && Represents(m, e, q, b)
    ensures x < y * Pow(2, 1024)
  {
    hide Pow, IsRound;
    BinadeBounds(x, y, b);
    if b >= 1025 {
      Twos();
      PowAdd(2, b - 53, 52);
      Assoc(y, Pow(2, b - 53), TWO52);
      ScalePositive(y, b - 53);
      ScaleZero(x, 53 - b);
      ScaleZero(x, 1 - b);
      assert -(53 - b) == b - 53;
      RoundBounds(q, Scale(x, 53 - b), Scale(y, b - 53), TWO52, 0, NearestEven);
      NotDoubled(m, e, q, b);
    } else {
      TopBound(x, y, b);
    }
  }

  lemma NotDoubled(m: nat, e: int, q: nat, b: int)
    requires q >= TWO52 && b > e && b >= -1021 && m > 0
    ensures !Represents(m, e, q, b)
  {
    hide Pow;
    if Represents(m, e, q, b) {
      ScaleZero(m, e - 53 - (b - 53));
      PowMonotone(2, 1, b - e);
      PowOne(2);
      MulMono(2, Pow(2, b - e), q);
    }
  }

  lemma TopBound(x: nat, y: nat, b: int)
    requires y > 0 && b <= 1024 && Scale(x, -b) < Scale(y, b)
    ensures x < y * Pow(2, 1024)
  {
    hide Pow;
    if b >= 0 {
      ScaleZero(x, -b);
      PowMonotone(2, b, 1024);
      MulMono(Pow(2, b), Pow(2, 1024), y);
    } else {
      ScaleZero(y, b);
      PowPositive(2, -b);
      MulAtLeast(x, Pow(2, -b));
      PowPositive(2, 1024);
      MulAtLeast(y, Pow(2, 1024));
    }
  }

  lemma AboveBottom(m: nat, e: int, q: nat, b: int, x: nat, y: nat)
    requires y > 0 && m > 0 && RoundsInBinade(q, b, x, y, NearestEven) && Represents(m, e, q, b)
    ensures y < x * Pow(2, 1075)
  {
    hide Pow, IsRound;
    if x * Pow(2, 1075) <= y {
      BinadeBounds(x, y, b);
      LowBinade(x, y, b);
      assert Precision(b) - b == 1074;
      PowAdd(2, 1074, 1);
      PowOne(2);
      Assoc(x, Pow(2, 1074), 2);
      ScaleZero(y, -1074);
      HalfIsZero(q, x * Pow(2, 1074), y);
      ZeroMantissa(m, e, b);
    }
  }

  lemma HalfIsZero(q: int, n: nat, d: nat)
    requires d > 0 && 2 * n <= d && IsRound(q, n, d, NearestEven)
    ensures q == 0
  {
    if q > 0 {
      MulMono(1, q, d);
      if q > 1 {
        MulMono(2, q, d);
      }
    } else if q < 0 {
      MulMono(q, -1, d);
    }
  }

  lemma ZeroMantissa(m: nat, e: int, b: int)
    requires Represents(m, e, 0, b)
    ensures m == 0
  {
    hide Pow, Scale;
    ZeroNumber(m, e - 53, b - Precision(b));
  }

  lemma LowBinade(x: nat, y: nat, b: int)
    requires y > 0 && x * Pow(2, 1075) <= y && Scale(y, b - 1) <= Scale(x, 1 - b)
    ensures b <= -1074
  {
    hide Pow;
    if b > -1074 {
      if b >= 1 {
        ScaleZero(x, 1 - b);
        PowPositive(2, b - 1);
        MulAtLeast(y, Pow(2, b - 1));
        BottomLess(x, y, 0);
      } else {
        ScaleZero(y, b - 1);
        BottomLess(x, y, 1 - b);
      }
    }
  }

  lemma BottomLess(x: nat, y: nat, k: nat)
    requires y > 0 && x * Pow(2, 1075) <= y && k < 1075
    ensures x * Pow(2, k) < y
  {
    hide Pow;
    PowStrict(2, k, 1075);
    if x > 0 {
      MulLess(x, Pow(2, k), Pow(2, 1075));
    }
  }

  /** Reading a number that rounds to a double in range yields the bits of that double. */
  lemma NearestIs(a: nat, m: nat, e: int, x: nat, y: nat)
    requires y > 0 && m > 0 && e <= 1024 && IsDouble(m, e, x, y, NearestEven) && Nearest(a, x, y)
    ensures a == Assemble(m, e)
  {
    hide Pow, IsDouble, Assemble;
    FiniteRange(m, e, x, y);
    var m': nat, e' :| IsDouble(m', e', x, y, NearestEven) && a == Assemble(m', e');
    DoubleUnique(m, e, m', e', x, y, NearestEven);
  }

  // ---------- a sticky bit in radix 2 ----------

  /** Rounding a bignum that carries a sticky bit is rounding the number it stands for. */
  lemma StickyDouble(v: nat, d: nat, w: nat, u: int, q: nat, n: nat, m: nat, e: int)
    requires d > 0 && w == Sticky(v, d) && (d > 1 ==> w >= Pow(2, 55)) && n > 0 && Pow(2, n - 1) <= w < Pow(2, n)
    requires Shifted(q, w, n - Precision(n + u), NearestEven) && Represents(m, e, q, n + u)
    ensures IsDouble(m, e, v * Pow(2, Up(u)), d * Pow(2, Up(-u)), NearestEven)
  {
    hide Pow, Represents, RoundsTo, IsRound, Sticky, Shifted;
    var binade := n + u;
    if d > 1 && n <= 55 {
      PowMonotone(2, n, 55);
    }
    StickyShift(q, v, d, w, u, n - Precision(binade), NearestEven);
    LeadingBit(w, n);
    StickyShift(1, v, d, w, u, n - 1, TowardZero);
    assert RoundsInBinade(q, binade, v * Pow(2, Up(u)), d * Pow(2, Up(-u)), NearestEven);
  }

  /** The same rounding, on the number itself. */
  lemma StickyShift(q: nat, v: nat, d: nat, w: nat, u: int, sh: int, mode: Mode)
    requires d > 0 && w == Sticky(v, d) && Shifted(q, w, sh, mode) && (d > 1 ==> sh >= 2)
    ensures RoundsTo(q, v * Pow(2, Up(u)), d * Pow(2, Up(-u)), -sh - u, mode)
  {
    hide Pow, RoundsTo, IsRound, Sticky;
    PowPositive(2, Up(-u));
    MulAtLeast(d, Pow(2, Up(-u)));
    StickyUnscaled(q, v, d, w, sh, mode);
    var k := Pow(2, Up(u) + Up(-u));
    PowPositive(2, Up(u) + Up(-u));
    PowPositive(2, Up(sh));
    MulAtLeast(d, Pow(2, Up(sh)));
    RoundScale(q, Scale(v, -sh), Scale(d, sh), k, mode);
    ShiftTerm(v, Up(u), Up(-sh), Up(-u));
    ShiftTerm(d, Up(-u), Up(sh), Up(u));
    RatioShift(q, v * Pow(2, Up(u)), d * Pow(2, Up(-u)), Up(-sh) + Up(-u), Up(sh) + Up(u), mode);
  }

  lemma StickyUnscaled(q: nat, v: nat, d: nat, w: nat, sh: int, mode: Mode)
    requires d > 0 && w == Sticky(v, d) && Shifted(q, w, sh, mode) && (d > 1 ==> sh >= 2)
    ensures IsRound(q, Scale(v, -sh), Scale(d, sh), mode)
  {
    hide Pow, IsRound, Sticky;
    StickyOne(v);
    if sh > 0 {
      ScaleZero(v, -sh);
      if d > 1 {
        StickyRounds(q, v, d, sh, mode);
      }
    } else {
      ScaleZero(d, sh);
      ExactRound(q, mode);
    }
  }

  lemma StickyOne(v: nat)
    ensures Sticky(v, 1) == v
  {
  }

  /** x * 2^a * 2^b * 2^c in another order. */
  lemma ShiftTerm(x: nat, a: nat, b: nat, c: nat)
    ensures x * Pow(2, a) * Pow(2, b + c) == x * Pow(2, b) * Pow(2, a + c)
  {
    hide Pow;
    PowAdd(2, a, b + c);
    PowAdd(2, b, a + c);
    Assoc(x, Pow(2, a), Pow(2, b + c));
    Assoc(x, Pow(2, b), Pow(2, a + c));
  }
}

module NumberRounding {
  import opened Arithmetic
  import opened Limbs
  import LimbBits
  import opened Rounding
  import opened Logarithms
  import opened Powers
  import opened Bignums
  import opened PowerScaling
  import opened Binary64
  import opened DigitStrings
  import opened DigitOutput
  import opened NumberSyntax
  import opened NumberReading
  import opened DoubleBits

  /** max_exponent, for radix 2 to 36. */
  const maxExponentTable: seq<nat> :=
    [1024, 647, 512, 442, 397, 365, 342, 324, 309, 297, 286, 277, 269, 263, 256, 251, 246, 242, 237, 234, 230, 227, 224,
     221, 218, 216, 214, 211, 209, 207, 205, 203, 202, 200, 199]

  /** min_exponent, for radix 2 to 36. */
  const minExponentTable: seq<int> :=
    [-1075, -679, -538, -463, -416, -383, -359, -340, -324, -311, -300, -291, -283, -276, -269, -263, -258, -254, -249,
     -245, -242, -238, -235, -232, -229, -227, -224, -222, -220, -217, -215, -214, -212, -210, -208]

  /** From radix^MaxExponent on, numbers overflow. */
  function MaxExponent(radix: nat): nat
    requires 2 <= radix <= 36
  {
    maxExponentTable[radix - 2]
  }

  /** Up to radix^-MinExponent, numbers underflow. */
  function MinExponent(radix: nat): (n: nat)
    requires 2 <= radix <= 36
    ensures n == -minExponentTable[radix - 2]
  {
    -minExponentTable[radix - 2]
  }

  lemma MaxExponentTable(radix: nat)
    requires 2 <= radix <= 36
    ensures MaxExponent(radix) * BoundsOf(radix).q2 >= BoundsOf(radix).p2 * 1024 && MaxExponent(radix) > 0
  {
  }

  lemma MinExponentTable(radix: nat)
    requires 2 <= radix <= 36
    ensures MinExponent(radix) * BoundsOf(radix).q2 >= BoundsOf(radix).p2 * 1075 && MinExponent(radix) > 0
  {
  }

  /** The tables of exponents keep what they promise. */
  lemma ExponentsBound(radix: nat)
    requires 2 <= radix <= 36
    ensures Pow(radix, MaxExponent(radix)) >= Pow(2, 1024) && Pow(radix, MinExponent(radix)) >= Pow(2, 1075)
  {
    hide Pow, BoundsOf, MaxExponent, MinExponent;
    MaxExponentTable(radix);
    MinExponentTable(radix);
    TableAbove(radix, MaxExponent(radix), 1024);
    TableAbove(radix, MinExponent(radix), 1075);
  }

  /** ctz32 */
  function Ctz(radix: nat): nat
  {
    if radix % 32 == 0 then 5 else if radix % 16 == 0 then 4 else if radix % 8 == 0 then 3
    else if radix % 4 == 0 then 2 else if radix % 2 == 0 then 1 else 0
  }

  /** radix >> ctz32(radix) */
  function OddRadix(radix: nat): Limb
    requires 2 <= radix <= 36
  {
    if radix % 32 == 0 then radix / 32 else if radix % 16 == 0 then radix / 16 else if radix % 8 == 0 then radix / 8
    else if radix % 4 == 0 then radix / 4 else if radix % 2 == 0 then radix / 2 else radix
  }

  lemma RadixParts(radix: nat)
    requires 2 <= radix <= 36
    ensures OddPart(OddRadix(radix)) && radix == OddRadix(radix) * Pow(2, Ctz(radix))
    ensures OddRadix(radix) == 1 <==> PowerOfTwo(radix)
    ensures PowerOfTwo(radix) ==> Ctz(radix) == BoundsOf(radix).q1
  {
    hide Pow;
    SmallPowers();
    assert Pow(2, 4) == 16 && Pow(2, 5) == 32 by {
      FifthPower();
    }
  }

  lemma FifthPower()
    ensures Pow(2, 4) == 16 && Pow(2, 5) == 32
  {
  }

  // ---------- the number that a literal denotes ----------

  /** The digits that count: all of them in a radix that is a power of two, else at most `AtodMaxDigits` significant ones. */
  function Counted(digits: seq<char>, radix: nat): (d: seq<char>)
    requires 2 <= radix <= 36
    ensures |d| <= |digits| && d == digits[..|d|]
  {
    if PowerOfTwo(radix) then digits else digits[..LeadingZeros(digits) + KeptDigits(digits, radix)]
  }

  /** The exponent of the last counted digit: of the radix, or of 2 where the radix is a power of two. */
  function Scaling(digits: seq<char>, point: nat, expn: int, binary: bool, radix: nat): int
    requires 2 <= radix <= 36
  {
    var frac := |Counted(digits, radix)| - point;
    if PowerOfTwo(radix) then (if binary then expn else expn * Ctz(radix)) - frac * Ctz(radix) else expn - frac
  }

  function ScaleBase(radix: nat): nat { if PowerOfTwo(radix) then 2 else radix }

  /** The number is `Numerator / Denominator`. */
  function Numerator(digits: seq<char>, point: nat, expn: int, binary: bool, radix: nat): nat
    requires 2 <= radix <= 36
  {
    Read(Counted(digits, radix), radix) * Pow(ScaleBase(radix), Up(Scaling(digits, point, expn, binary, radix)))
  }

  function Denominator(digits: seq<char>, point: nat, expn: int, binary: bool, radix: nat): nat
    requires 2 <= radix <= 36
  {
    Pow(ScaleBase(radix), Up(-Scaling(digits, point, expn, binary, radix)))
  }

  // ---------- the ranges where no rounding is needed ----------

  /** v * b^f >= 2^1024, by its leading digit. */
  lemma Overflows(v: nat, b: nat, n: nat, f: int, k: nat)
    requires b > 1 && v >= Pow(b, n) && f + n >= k && Pow(b, k) >= Pow(2, 1024)
    ensures v * Pow(b, Up(f)) >= Pow(b, Up(-f)) * Pow(2, 1024)
  {
    hide Pow;
    PowMonotone(b, k, f + n);
    PowAdd(b, n, Up(f));
    PowAdd(b, Up(-f), f + n);
    PowPositive(b, Up(-f));
    MulMono(Pow(b, n), v, Pow(b, Up(f)));
    MulMono(Pow(2, 1024), Pow(b, f + n), Pow(b, Up(-f)));
    assert n + Up(f) == Up(-f) + (f + n);
  }

  /** v * b^f <= 2^-1075. */
  lemma Underflows(v: nat, b: nat, n: nat, f: int, k: nat)
    requires b > 1 && v <= Pow(b, n) && f + n + k <= 0 && Pow(b, k) >= Pow(2, 1075)
    ensures v * Pow(b, Up(f)) * Pow(2, 1075) <= Pow(b, Up(-f))
  {
    hide Pow;
    PowOne(b);
    assert Up(f) == 0;
    PowAdd(b, n, k);
    PowMonotone(b, n + k, -f);
    PowPositive(2, 1075);
    MulMono(v, Pow(b, n), Pow(2, 1075));
    MulMono(Pow(2, 1075), Pow(b, k), Pow(b, n));
  }

  /** The significant digits begin with one that is not zero. */
  lemma SignificantBounds(digits: seq<char>, radix: nat, k: nat)
    requires 2 <= radix <= 36 && AllDigits(digits, radix) && 0 < k <= |Significant(digits)|
    ensures Pow(radix, k - 1) <= Read(Significant(digits)[..k], radix) < Pow(radix, k)
  {
    hide Read, Pow;
    var s := Significant(digits)[..k];
    forall i | 0 <= i < k ensures ToDigit(s[i]) < radix {
      assert s[i] == digits[LeadingZeros(digits) + i];
    }
    ReadBound(s, radix);
    assert s == s[..1] + s[1..];
    ReadAppend(s[..1], s[1..], radix);
    FirstDigit(s, radix);
    PowPositive(radix, k - 1);
    MulMono(1, Read(s[..1], radix), Pow(radix, k - 1));
  }

  lemma FirstDigit(s: seq<char>, radix: nat)
    requires s != [] && s[0] != '0' && ToDigit(s[0]) < radix <= 36
    ensures Read(s[..1], radix) >= 1
  {
    assert s[..1][..0] == [];
    assert ToDigit(s[0]) != 0;
  }

  /** The bignum stays within four limbs. */
  lemma FewLimbs(a: Bignum, radix: nat, k: nat)
    requires a.Valid() && a.Normal() && 2 <= radix <= 36 && a.Num() < Pow(radix, k) && k <= AtodMaxDigits(radix)
    ensures a.len <= 4
  {
    hide Pow, Value, BoundsOf;
    DigitLimit(radix);
    PowMonotone(radix, k, AtodMaxDigits(radix));
    TableBelow(radix, AtodMaxDigits(radix), 128);
    BaseIsPow();
    PowMul(2, 32, 4);
    if a.len > 4 {
      LimbBits.TopLimb(a.tab[..a.len]);
      PowMonotone(BASE, 4, a.len - 1);
    }
  }

  lemma DigitLimit(radix: nat)
    requires 2 <= radix <= 36
    ensures AtodMaxDigits(radix) * BoundsOf(radix).q1 <= BoundsOf(radix).p1 * 128
  {
  }

  /** Room for scaling by any power of the radix that js_atod does not shortcut. */
  lemma AtodRoom(radix: nat, f: int, dc: nat)
    requires 2 <= radix <= 36 && !PowerOfTwo(radix) && dc <= AtodMaxDigits(radix)
    requires -(MinExponent(radix) as int) < f + dc <= MaxExponent(radix)
    ensures 1 < OddRadix(radix) <= 35 && 4 + MulPowRoom(OddRadix(radix), Ctz(radix), f, false, 55) + 2 <= DBIGNUM_LEN_MAX
  {
    hide MaxExponent, MinExponent, AtodMaxDigits, OddRadix, Ctz, DigitsPerLimb;
    RadixParts(radix);
    RoomTable(radix);
    var d := DigitsPerLimb(OddRadix(radix));
    DigitsFit(OddRadix(radix));
    if f >= 0 {
      FewChunks(OddRadix(radix), f, 44);
    } else {
      FewChunks(OddRadix(radix), -f, 44);
    }
  }

  lemma FewChunks(radix1: nat, f: nat, c: nat)
    requires 2 <= radix1 <= 36 && f <= c * DigitsPerLimb(radix1)
    ensures Chunks(radix1, f) <= c
  {
    hide DigitsPerLimb;
    DigitsFit(radix1);
    var d := DigitsPerLimb(radix1);
    DivMono(f + d - 1, c * d + (d - 1), d);
    DivUnique(c * d + (d - 1), d, c, d - 1);
  }

  lemma RoomTable(radix: nat)
    requires 2 <= radix <= 36 && !PowerOfTwo(radix)
    ensures OddRadix(radix) > 1
    ensures MaxExponent(radix) <= 44 * DigitsPerLimb(OddRadix(radix))
    ensures MinExponent(radix) + AtodMaxDigits(radix) <= 44 * DigitsPerLimb(OddRadix(radix)) + 1
  {
    hide MaxExponent, MinExponent, AtodMaxDigits, OddRadix, DigitsPerLimb;
    RadixParts(radix);
    OddDigits(radix);
    ExponentRoom(radix);
  }

  /** A lower bound for the digits of the odd part that fit a limb, by the size of the radix. */
  function LimbDigits(radix: nat): nat
  {
    if radix <= 3 then 18 else if radix <= 6 then 13 else if radix <= 10 then 10 else if radix <= 14 then 8
    else if radix <= 23 then 7 else 6
  }

  lemma OddDigits(radix: nat)
    requires 2 <= radix <= 36 && !PowerOfTwo(radix)
    ensures OddRadix(radix) > 1 ==> LimbDigits(radix) <= DigitsPerLimb(OddRadix(radix))
  {
  }

  lemma ExponentRoom(radix: nat)
    requires 3 <= radix <= 36
    ensures MaxExponent(radix) <= 44 * LimbDigits(radix) && MinExponent(radix) + AtodMaxDigits(radix) <= 44 * LimbDigits(radix) + 1
  {
  }

  /** The leading zeros do not count. */
  lemma CountedRead(digits: seq<char>, radix: nat, k: nat)
    requires k <= |Significant(digits)|
    ensures Read(digits[..LeadingZeros(digits) + k], radix) == Read(Significant(digits)[..k], radix)
  {
    hide Read;
    var z := LeadingZeros(digits);
    assert digits[..z + k] == digits[..z] + Significant(digits)[..k];
    ReadAppend(digits[..z], Significant(digits)[..k], radix);
    ReadZeros(digits[..z], radix);
  }

  /** The digits that ReadMantissa leaves to be rounded. */
  ghost predicate Digested(tmp0: Bignum, digits: seq<char>, radix: nat, digitCount: nat, extra: bool)
    reads tmp0, tmp0.tab
  {
    tmp0.Valid() && tmp0.Normal() && tmp0.tab.Length == DBIGNUM_LEN_MAX && 2 <= radix <= 36 && AllDigits(digits, radix) &&
    0 < digitCount == KeptDigits(digits, radix) && tmp0.Num() == Read(Significant(digits)[..digitCount], radix) &&
    (extra <==> Read(Significant(digits)[digitCount..], radix) != 0)
  }

  lemma DigestedFacts(tmp0: Bignum, digits: seq<char>, radix: nat, k: nat, extra: bool)
    requires Digested(tmp0, digits, radix, k, extra)
    ensures 0 < k <= AtodMaxDigits(radix) && k <= |Significant(digits)| && tmp0.len <= 4
    ensures Pow(radix, k - 1) <= tmp0.Num() < Pow(radix, k)
    ensures Read(digits[..LeadingZeros(digits) + k], radix) == tmp0.Num()
  {
    hide Read, Pow, Value;
    SignificantBounds(digits, radix, k);
    FewLimbs(tmp0, radix, k);
    CountedRead(digits, radix, k);
  }

  /** The end of js_atod in a radix that is not a power of two. */
  method OtherMagnitude(tmp0: Bignum, ghost digits: seq<char>, radix: nat, point: nat, sigPos: nat, digitCount: nat, ghost extra: bool, expn: int)
    returns (a: nat)
    requires Digested(tmp0, digits, radix, digitCount, extra) && !PowerOfTwo(radix) && sigPos == LeadingZeros(digits)
    modifies tmp0`len, tmp0.tab
    ensures Nearest(a, Numerator(digits, point, expn, false, radix), Denominator(digits, point, expn, false, radix))
  {
    hide Digested, Pow, Read, IsDouble, Assemble, MaxExponent, MinExponent, OddRadix, Ctz, MulPowRoom, AtodMaxDigits;
    DigestedShape(tmp0, digits, radix, digitCount, extra);
    DigestedFacts(tmp0, digits, radix, digitCount, extra);
    ghost var v := tmp0.Num();
    var expnOffset := sigPos + digitCount - point;
    var f := expn - expnOffset;
    OtherLiteral(digits, point, expn, radix, f, v);
    var expn1 := f + digitCount;
    ExponentsBound(radix);
    if expn1 >= MaxExponent(radix) + 1 {
      Overflows(v, radix, digitCount - 1, f, MaxExponent(radix));
      return INFINITY_BITS;
    }
    if expn1 <= -(MinExponent(radix) as int) {
      Underflows(v, radix, digitCount, f, MinExponent(radix));
      return 0;
    }
    AtodRoom(radix, f, digitCount);
    RadixParts(radix);
    PowPositive(radix, digitCount - 1);
    var m, e := MulPowRoundToD(tmp0, OddRadix(radix), Ctz(radix), f, NearestEven);
    a := Assemble(m, e);
  }

  lemma DigestedShape(tmp0: Bignum, digits: seq<char>, radix: nat, k: nat, extra: bool)
    requires Digested(tmp0, digits, radix, k, extra)
    ensures 2 <= radix <= 36 && tmp0.Valid() && tmp0.Normal() && tmp0.tab.Length == DBIGNUM_LEN_MAX && k == KeptDigits(digits, radix)
    ensures AllDigits(digits, radix) && tmp0.Num() == Read(Significant(digits)[..k], radix)
    ensures extra <==> Read(Significant(digits)[k..], radix) != 0
  {
  }

  lemma OtherLiteral(digits: seq<char>, point: nat, expn: int, radix: nat, f: int, v: nat)
    requires 2 <= radix <= 36 && !PowerOfTwo(radix) && f == expn - (LeadingZeros(digits) + KeptDigits(digits, radix) - point)
    requires v == Read(digits[..LeadingZeros(digits) + KeptDigits(digits, radix)], radix)
    ensures Numerator(digits, point, expn, false, radix) == v * Pow(radix, Up(f))
    ensures Denominator(digits, point, expn, false, radix) == Pow(radix, Up(-f))
  {
    hide Pow, Read, LeadingZeros;
  }

  /** The dropped digits of a radix 2^k, and what the sticky bit says about them. */
  lemma StickyDigits(digits: seq<char>, radix: nat, dc: nat, t: nat, w: nat, extra: bool)
    requires 2 <= radix <= 36 && AllDigits(digits, radix) && dc <= |Significant(digits)| && t == Read(Significant(digits)[..dc], radix)
    requires (extra <==> Read(Significant(digits)[dc..], radix) != 0) && w == if extra then t / 2 * 2 + 1 else t
    ensures var d := Pow(radix, |Significant(digits)| - dc); d > 0 && w == Sticky(Read(digits, radix), d)
  {
    hide Read, Pow;
    var sig := Significant(digits);
    var head, tail := sig[..dc], sig[dc..];
    assert sig == head + tail;
    ReadSignificant(digits, radix);
    ReadAppend(head, tail, radix);
    forall i | 0 <= i < |tail| ensures ToDigit(tail[i]) < radix {
      assert tail[i] == digits[LeadingZeros(digits) + dc + i];
    }
    ReadBound(tail, radix);
    PowPositive(radix, |sig| - dc);
    DivUnique(Read(digits, radix), Pow(radix, |sig| - dc), t, Read(tail, radix));
  }

  /** A binade of numbers of `s` digits in radix 2^k. */
  lemma BinarySize(digits: seq<char>, radix: nat, k: nat, s: nat)
    requires 2 <= radix <= 36 && radix == Pow(2, k) && AllDigits(digits, radix) && s == |Significant(digits)| > 0
    ensures k * (s - 1) >= 0 && k * s >= 0
    ensures Pow(2, k * (s - 1)) <= Read(digits, radix) < Pow(2, k * s)
  {
    hide Read, Pow;
    assert Significant(digits)[..s] == Significant(digits);
    SignificantBounds(digits, radix, s);
    ReadSignificant(digits, radix);
    MulNonneg(k, s - 1);
    MulNonneg(k, s);
    PowMul(2, k, s - 1);
    PowMul(2, k, s);
  }

  /** Enough digits are kept for two guard bits. */
  lemma GuardBits(radix: nat, t: nat, w: nat)
    requires 2 <= radix <= 36 && PowerOfTwo(radix) && t >= Pow(radix, AtodMaxDigits(radix) - 1) && w >= t
    ensures w >= Pow(2, 55)
  {
    hide Pow, BoundsOf;
    BinaryRadix(radix);
    GuardTable(radix);
    var k := BoundsOf(radix).q1;
    PowMul(2, k, AtodMaxDigits(radix) - 1);
    Assoc(k, AtodMaxDigits(radix) - 1, 1);
    PowMonotone(2, 55, k * (AtodMaxDigits(radix) - 1));
  }

  lemma GuardTable(radix: nat)
    requires 2 <= radix <= 36 && PowerOfTwo(radix)
    ensures (AtodMaxDigits(radix) - 1) * BoundsOf(radix).q1 >= 55
  {
  }

  /** The exponents of the code and of the literal differ by the dropped digits. */
  lemma BinaryExponents(digits: seq<char>, point: nat, expn: int, binary: bool, radix: nat, dc: nat, k: nat, e2: int)
    requires 2 <= radix <= 36 && PowerOfTwo(radix) && k == Ctz(radix) && dc <= |Significant(digits)|
    requires e2 == (if binary then expn else expn * k) - (LeadingZeros(digits) + dc - point) * k
    ensures var s := |Significant(digits)|;
            var b := Scaling(digits, point, expn, binary, radix);
            b == e2 - k * (s - dc) && b + k * s == e2 + dc * k && b + k * (s - 1) == e2 + dc * k - k
  {
    hide Ctz;
    var s := |Significant(digits)|;
    var x := LeadingZeros(digits) + dc - point;
    assert |digits| - point == x + (s - dc);
    Distrib(k, x, s - dc);
    Distrib(k, s, dc);
    Distrib(k, s, 1);
    Assoc(k, dc, 1);
  }

  /** Moving the power of two that the dropped digits stand for into the exponent. */
  lemma BinaryRatioShift(m: nat, e: int, v: nat, d: nat, kn: nat, e2: int, b: int)
    requires d == Pow(2, kn) && d > 0 && b == e2 - kn
    requires IsDouble(m, e, v * Pow(2, Up(e2)), d * Pow(2, Up(-e2)), NearestEven)
    ensures IsDouble(m, e, v * Pow(2, Up(b)), Pow(2, Up(-b)), NearestEven)
  {
    hide Pow, IsDouble;
    PowPositive(2, Up(-e2));
    PowPositive(2, Up(-b));
    MulAtLeast(d, Pow(2, Up(-e2)));
    PowAdd(2, kn, Up(-e2));
    PowAdd(2, Up(e2), Up(-b));
    PowAdd(2, Up(b), kn + Up(-e2));
    Assoc(v, Pow(2, Up(e2)), Pow(2, Up(-b)));
    Assoc(v, Pow(2, Up(b)), d * Pow(2, Up(-e2)));
    IsDoubleRatio(m, e, v * Pow(2, Up(e2)), d * Pow(2, Up(-e2)), v * Pow(2, Up(b)), Pow(2, Up(-b)), NearestEven);
  }

  /** The end of js_atod in a radix that is a power of two: exact rounding, however many digits there are. */
  method BinaryMagnitude(tmp0: Bignum, ghost digits: seq<char>, radix: nat, point: nat, sigPos: nat, digitCount: nat, extra: bool,
                         expn: int, binary: bool) returns (a: nat)
    requires Digested(tmp0, digits, radix, digitCount, extra) && PowerOfTwo(radix) && sigPos == LeadingZeros(digits)
    modifies tmp0`len, tmp0.tab
    ensures Nearest(a, Numerator(digits, point, expn, binary, radix), Denominator(digits, point, expn, binary, radix))
  {
    hide Digested, Pow, Read, IsDouble, Assemble, Ctz, AtodMaxDigits, Represents, Shifted, Sticky, BoundsOf;
    DigestedShape(tmp0, digits, radix, digitCount, extra);
    DigestedFacts(tmp0, digits, radix, digitCount, extra);
    RadixParts(radix);
    var radixBits := Ctz(radix);
    ghost var s, v, t := |Significant(digits)|, Read(digits, radix), tmp0.Num();
    if extra {
      tmp0.SetLowBit();
    }
    ghost var w := tmp0.Num();
    DigestedSticky(digits, radix, digitCount, t, w, extra);
    var expnOffset := sigPos + digitCount - point;
    var e2 := (if binary then expn else expn * radixBits) - expnOffset * radixBits;
    ghost var b := Scaling(digits, point, expn, binary, radix);
    BinaryExponents(digits, point, expn, binary, radix, digitCount, radixBits, e2);
    BinaryLiteral(digits, point, expn, binary, radix, v, b);
    BinarySize(digits, radix, radixBits, s);
    var expn1 := e2 + digitCount * radixBits;
    if expn1 >= 1024 + radixBits {
      Overflows(v, 2, radixBits * (s - 1), b, 1024);
      return INFINITY_BITS;
    }
    if expn1 <= -1075 {
      Underflows(v, 2, radixBits * s, b, 1075);
      return 0;
    }
    ghost var j := s - digitCount;
    MulNonneg(radixBits, j);
    PowMul(2, radixBits, j);
    a := BinaryRound(tmp0, v, Pow(radix, j), radixBits * j, e2, b);
  }

  /** The rounding of the bignum with its sticky bit. */
  method BinaryRound(tmp0: Bignum, ghost v: nat, ghost d: nat, ghost kn: nat, e2: int, ghost b: int) returns (a: nat)
    requires tmp0.Valid() && tmp0.Normal() && tmp0.len + 2 <= tmp0.tab.Length && tmp0.Num() > 0
    requires d > 0 && d == Pow(2, kn) && b == e2 - kn && tmp0.Num() == Sticky(v, d) && (d > 1 ==> tmp0.Num() >= Pow(2, 55))
    modifies tmp0`len, tmp0.tab
    ensures Nearest(a, v * Pow(2, Up(b)), Pow(2, Up(-b)))
  {
    hide Pow, IsDouble, Assemble, Represents, Shifted, Sticky;
    ghost var w := tmp0.Num();
    var m, e;
    ghost var q, n;
    m, e, q, n := RoundToD(tmp0, -e2, NearestEven);
    StickyDouble(v, d, w, e2, q, n, m, e);
    BinaryRatioShift(m, e, v, d, kn, e2, b);
    a := Assemble(m, e);
  }

  lemma DigestedSticky(digits: seq<char>, radix: nat, dc: nat, t: nat, w: nat, extra: bool)
    requires 2 <= radix <= 36 && PowerOfTwo(radix) && AllDigits(digits, radix) && 0 < dc == KeptDigits(digits, radix)
    requires t == Read(Significant(digits)[..dc], radix) && (extra <==> Read(Significant(digits)[dc..], radix) != 0)
    requires w == (if extra then t / 2 * 2 + 1 else t) && t >= Pow(radix, dc - 1)
    ensures var d := Pow(radix, |Significant(digits)| - dc);
            d > 0 && w == Sticky(Read(digits, radix), d) && (d > 1 ==> w >= Pow(2, 55)) && w > 0
  {
    hide Read, Pow, Sticky;
    StickyDigits(digits, radix, dc, t, w, extra);
    PowPositive(radix, dc - 1);
    PowOne(radix);
    if |Significant(digits)| > dc {
      GuardBits(radix, t, w);
    }
  }

  lemma BinaryLiteral(digits: seq<char>, point: nat, expn: int, binary: bool, radix: nat, v: nat, b: int)
    requires 2 <= radix <= 36 && PowerOfTwo(radix) && v == Read(digits, radix) && b == Scaling(digits, point, expn, binary, radix)
    ensures Numerator(digits, point, expn, binary, radix) == v * Pow(2, Up(b))
    ensures Denominator(digits, point, expn, binary, radix) == Pow(2, Up(-b))
  {
    hide Pow, Read, Scaling;
  }
}
