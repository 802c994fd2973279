// js_dtoa in free format: decoding the double, choosing its digits, and writing them out.
module DoubleDecoding {
  import opened Arithmetic
  import opened Rounding
  import opened Powers
  import opened PowerScaling
  import opened Binary64
  import opened FreeFormatFacts
  import opened DoubleBits

  function Clz64(x: nat): (n: nat)
    requires 0 < x < TWO64
    decreases TWO64 - x
  {
    if x >= 0x8000_0000_0000_0000 then 0 else 1 + Clz64(2 * x)
  }

  lemma {:induction false} Clz64Normalises(x: nat)
    requires 0 < x < TWO64
    ensures 0x8000_0000_0000_0000 <= x * Pow(2, Clz64(x)) < TWO64
    decreases TWO64 - x
  {
    if x < 0x8000_0000_0000_0000 {
      Clz64Normalises(2 * x);
      var p := Pow(2, Clz64(2 * x));
      Assoc(x, 2, p);
      Assoc(2, x, p);
    }
  }

  /** The shift that brings a subnormal mantissa to 53 bits. */
  lemma SubnormalShift(m: nat)
    requires 0 < m < TWO52
    ensures 12 <= Clz64(m) <= 63 && TWO52 <= m * Pow(2, Clz64(m) - 11) < TWO53
  {
    hide Pow, Clz64;
    Clz64Normalises(m);
    var n := Clz64(m);
    Twos();
    Eleven();
    if n >= 11 {
      PowAdd(2, n - 11, 11);
      Assoc(m, Pow(2, n - 11), 2048);
    } else {
      PowMonotone(2, n, 11);
      MulMono(Pow(2, n), 2048, m);
    }
    PowOne(2);
    if n > 63 {
      PowMonotone(2, 64, n);
      PowAdd(2, 53, 11);
      MulMono(1, m, Pow(2, n));
    }
  }

  lemma Eleven()
    ensures Pow(2, 11) == 2048 && Pow(2, 0) == 1
  {
  }

  /** The mantissa and exponent of a finite double other than zero, its sign removed: it is m * 2^(e - 53). */
  function Decode(abs: nat): (r: (nat, int))
    requires 0 < abs < INFINITY_BITS
  {
    var field, frac := abs / TWO52, abs % TWO52;
    if field == 0 then
      var l := Clz64(frac) - 11;
      (frac * Pow(2, Up(l)), 0 - (l - 1) - 1022)
    else (frac + TWO52, field - 1022)
  }

  /** Decoding loses nothing. */
  lemma DecodeAssemble(abs: nat)
    requires 0 < abs < INFINITY_BITS
    ensures var (m, e) := Decode(abs); Canonical(m, e) && e <= 1024 && Assemble(m, e) == abs
  {
    hide Pow, Clz64;
    var field, frac := abs / TWO52, abs % TWO52;
    DivIs(abs, TWO52);
    if field == 0 {
      SubnormalShift(frac);
      var l := Clz64(frac) - 11;
      var m, e := frac * Pow(2, l), 0 - (l - 1) - 1022;
      assert -e - 1021 == l && Spare(e) == l;
      PowPositive(2, l);
      DivUnique(m, Pow(2, l), frac, 0);
    } else {
      var m, e := frac + TWO52, field - 1022;
      assert Spare(e) == 0 || e >= -1021;
      Eleven();
      DivUnique(m, TWO52, 1, frac);
    }
  }
}

module NumberText {
  import opened Arithmetic
  import opened Limbs
  import opened Logarithms
  import opened Powers
  import opened Bignums
  import opened PowerScaling
  import opened Binary64
  import opened FreeFormatFacts
  import opened DigitStrings
  import opened DigitOutput
  import opened NumberRounding
  import opened DoubleDecoding

  /** JS_DTOA_EXP_* */
  datatype ExpMode = ExpAuto | ExpEnabled | ExpDisabled

  /** The digits of an integer, without leading zeros. */
  function Integer(v: nat, radix: nat): (s: seq<char>)
    requires 2 <= radix <= 36
    ensures s != []
    decreases v
  {
    if v < radix then [DigitChar(v)] else
      DigitOf(v, radix);
      SmallerQuotient(v, radix);
      Integer(v / radix, radix) + [DigitChar(v % radix)]
  }

  /** The last digit, and what is in front of it. */
  function InFront(v: nat, radix: nat): seq<char>
    requires 2 <= radix <= 36
  {
    if v == 0 then [] else Integer(v, radix)
  }

  lemma LastDigit(v: nat, radix: nat)
    requires 2 <= radix <= 36
    ensures v % radix < 36 && 0 <= v % radix && v / radix >= 0 && (v > 0 ==> v / radix < v)
    ensures Integer(v, radix) == InFront(v / radix, radix) + [DigitChar(v % radix)]
  {
    hide DigitChar;
    DigitOf(v, radix);
    DivIs(v, radix);
    if v < radix {
      DivUnique(v, radix, 0, v);
    } else {
      SmallerQuotient(v, radix);
      DivUnique(radix, radix, 1, 0);
      DivMono(radix, v, radix);
    }
  }

  lemma {:induction false} IntegerIsPrinted(v: nat, radix: nat, n: nat)
    requires 2 <= radix <= 36 && n > 0 && v < Pow(radix, n) && (n > 1 ==> Pow(radix, n - 1) <= v)
    ensures Integer(v, radix) == Printed(v, radix, n)
    decreases n
  {
    hide DigitChar;
    DigitOf(v, radix);
    PrintedStep(v, radix, n);
    PowOne(radix);
    if n == 1 {
      DivUnique(v, radix, 0, v);
    } else {
      PowMonotone(radix, 1, n - 1);
      DivIs(v, radix);
      Assoc(radix, Pow(radix, n - 1), 1);
      MulCancel(v / radix, Pow(radix, n - 1), radix);
      if n > 2 && v / radix < Pow(radix, n - 2) {
        MulMono(v / radix + 1, Pow(radix, n - 2), radix);
        Distrib(radix, v / radix, 1);
        Assoc(radix, Pow(radix, n - 2), 1);
      }
      IntegerIsPrinted(v / radix, radix, n - 1);
    }
  }

  /** An integer can be written in two parts. */
  lemma {:induction false} IntegerSplit(v: nat, radix: nat, j: nat)
    requires 2 <= radix <= 36 && Pow(radix, j) > 0 && v / Pow(radix, j) > 0
    ensures Integer(v, radix) == Integer(v / Pow(radix, j), radix) + Printed(v, radix, j)
    decreases j
  {
    hide DigitChar;
    if j == 0 {
      assert v / 1 == v;
    } else {
      PowPositive(radix, j - 1);
      DigitOf(v, radix);
      PrintedStep(v, radix, j);
      DivDiv(v, radix, Pow(radix, j - 1));
      if v < radix {
        DivUnique(v, radix, 0, v);
        DivUnique(0, Pow(radix, j - 1), 0, 0);
      }
      IntegerSplit(v / radix, radix, j - 1);
    }
  }

  function ZeroChars(n: nat): seq<char> { seq(n, i => '0') }

  /** The letter and the exponent behind a number in exponential form; `e` is the exponent of the first digit. */
  function ExponentText(e: int, radix: nat): seq<char>
    requires 2 <= radix <= 36
  {
    var binary := PowerOfTwo(radix) && Ctz(radix) <= 4;
    var x := if radix != 10 && binary then e * Ctz(radix) else e;
    [if radix == 10 then 'e' else if binary then 'p' else '@'] + [if x < 0 then '-' else '+'] +
    Integer(if x < 0 then -x else x, 10)
  }

  /** The number 0.d1d2d3... * radix^e as js_dtoa lays it out. */
  function Layout(digits: seq<char>, e: int, radix: nat, mode: ExpMode): seq<char>
    requires 2 <= radix <= 36 && digits != []
  {
    if mode.ExpEnabled? || (mode.ExpAuto? && (e <= -6 || e > MaxDigits(radix) + 4)) then
      WithDot(digits, 1) + ExponentText(e - 1, radix)
    else if e <= 0 then ['0', '.'] + ZeroChars(-e) + digits
    else if e < |digits| then WithDot(digits, e)
    else digits + ZeroChars(e - |digits|)
  }

  /** What has been written to a buffer so far. */
  ghost predicate Holds(buf: seq<char>, was: seq<char>, q: nat, q': nat, text: seq<char>)
  {
    |buf| == |was| && q <= q' <= |buf| && buf[..q'] == was[..q] + text
  }

  lemma HoldsMore(t: seq<char>, u: seq<char>, was: seq<char>, q: nat, q': nat, q'': nat, text: seq<char>, more: seq<char>)
    requires Holds(t, was, q, q', text) && Holds(u, t, q', q'', more)
    ensures Holds(u, was, q, q'', text + more)
  {
  }

  method PutChar(buf: array<char>, q0: nat, c: char) returns (q: nat)
    requires q0 < buf.Length
    modifies buf
    ensures Holds(buf[..], old(buf[..]), q0, q, [c]) && q == q0 + 1
  {
    buf[q0] := c;
    q := q0 + 1;
  }

  method PutText(buf: array<char>, q0: nat, s: seq<char>) returns (q: nat)
    requires q0 + |s| <= buf.Length
    modifies buf
    ensures Holds(buf[..], old(buf[..]), q0, q, s) && q == q0 + |s|
  {
    forall i | 0 <= i < |s| {
      buf[q0 + i] := s[i];
    }
    q := q0 + |s|;
    assert buf[..q] == buf[..q0] + buf[q0..q] && buf[q0..q] == s;
  }

  /** The zeros in front of or behind the digits. */
  method PutZeros(buf: array<char>, q0: nat, n: int) returns (q: nat)
    requires q0 + (if n > 0 then n else 0) <= buf.Length
    modifies buf
    ensures var k := if n > 0 then n else 0; Holds(buf[..], old(buf[..]), q0, q, ZeroChars(k)) && q == q0 + k
  {
    q := q0;
    var i := 0;
    while i < n
      invariant 0 <= i && (i <= n || i == 0) && q == q0 + i <= buf.Length
      invariant buf[..q] == old(buf[..q0]) + ZeroChars(i)
    {
      buf[q] := '0';
      q := q + 1;
      i := i + 1;
      assert buf[..q] == buf[..q - 1] + ['0'];
      assert ZeroChars(i) == ZeroChars(i - 1) + ['0'];
    }
  }

  /** The loop that takes the digits off an integer, filling a local buffer from its end (u32toa, u64toa_radix). */
  method IntegerDigits(n0: nat, radix: nat, size: nat) returns (s: seq<char>)
    requires 2 <= radix <= 36 && size > 0 && n0 < Pow(radix, size)
    ensures s == Integer(n0, radix) && |s| <= size
  {
    hide Pow, DigitChar, Integer, Lifted;
    var buf1 := new char[size];
    var q, n := size, n0;
    PowOne(radix);
    LastDigit(n, radix);
    TakeDigit(n, n0, radix, 0);
    FrontNext(n0, n, radix, []);
    FillBack(buf1, q, DigitChar(n % radix));
    q := q - 1;
    n := n / radix;
    while n != 0
      invariant 0 <= q < size == buf1.Length && 0 <= n && Lifted(n, radix, size - q) <= n0
      invariant Integer(n0, radix) == InFront(n, radix) + buf1[q..]
      decreases n
    {
      LastDigit(n, radix);
      TakeDigit(n, n0, radix, size - q);
      RoomLeft(n, n0, radix, size - q, size);
      FrontNext(n0, n, radix, buf1[q..]);
      FillBack(buf1, q, DigitChar(n % radix));
      q := q - 1;
      n := n / radix;
    }
    s := buf1[q..];
  }

  /** Writes one character in front of what is there. */
  method FillBack(buf1: array<char>, q: nat, c: char)
    requires 0 < q <= buf1.Length
    modifies buf1
    ensures buf1[q - 1..] == [c] + old(buf1[q..])
  {
    buf1[q - 1] := c;
  }

  lemma FrontNext(n0: nat, n: nat, radix: nat, rest: seq<char>)
    requires 2 <= radix <= 36 && ((n > 0 && Integer(n0, radix) == InFront(n, radix) + rest) || (n == n0 && rest == []))
    ensures n % radix < 36 && 0 <= n % radix && n / radix >= 0
    ensures Integer(n0, radix) == InFront(n / radix, radix) + ([DigitChar(n % radix)] + rest)
  {
    hide DigitChar, Integer;
    LastDigit(n, radix);
    assert InFront(n / radix, radix) + [DigitChar(n % radix)] + rest == InFront(n / radix, radix) + ([DigitChar(n % radix)] + rest);
  }

  lemma SmallerQuotient(n: nat, radix: nat)
    requires n > 0 && radix > 1
    ensures 0 <= n / radix < n
  {
    DivIs(n, radix);
    DivNonneg(n, radix);
    MulMono(2, radix, n / radix);
  }

  /** n * radix^k */
  function Lifted(n: nat, radix: nat, k: nat): nat { n * Pow(radix, k) }

  lemma TakeDigit(n: nat, n0: nat, radix: nat, k: nat)
    requires radix > 1 && (Lifted(n, radix, k) <= n0 || (k == 0 && n == n0))
    ensures n / radix >= 0 && Lifted(n / radix, radix, k + 1) <= n0
  {
    hide Pow;
    DivIs(n, radix);
    DivNonneg(n, radix);
    PowPositive(radix, k);
    PowAdd(radix, 1, k);
    PowOne(radix);
    Assoc(n / radix, radix, Pow(radix, k));
    MulMono(n / radix * radix, n, Pow(radix, k));
  }

  lemma RoomLeft(n: nat, n0: nat, radix: nat, k: nat, size: nat)
    requires radix > 1 && n > 0 && Lifted(n, radix, k) <= n0 < Pow(radix, size)
    ensures k < size
  {
    hide Pow;
    MulMono(1, n, Pow(radix, k));
    if size <= k {
      PowMonotone(radix, size, k);
    }
  }

  lemma {:induction false} IntegerLength(v: nat, radix: nat, k: nat)
    requires 2 <= radix <= 36 && k > 0 && v < Pow(radix, k)
    ensures |Integer(v, radix)| <= k
    decreases k
  {
    hide DigitChar;
    PowOne(radix);
    if v >= radix {
      if k == 1 {
        assert false;
      }
      DivIs(v, radix);
      DivNonneg(v, radix);
      PrintedStep(v, radix, k);
      Assoc(radix, Pow(radix, k - 1), 1);
      MulCancel(v / radix, Pow(radix, k - 1), radix);
      IntegerLength(v / radix, radix, k - 1);
    }
  }

  lemma TenDigits()
    ensures Pow(10, 10) > BASE && Pow(10, 9) == 1000000000
  {
  }

  /** u32toa */
  method U32toa(buf: array<char>, q0: nat, n: Limb) returns (q: nat)
    requires q0 + |Integer(n, 10)| <= buf.Length
    modifies buf
    ensures Holds(buf[..], old(buf[..]), q0, q, Integer(n, 10))
  {
    hide Integer, Pow;
    TenDigits();
    var s := IntegerDigits(n, 10, 10);
    q := PutText(buf, q0, s);
  }

  /** u64toa, for numbers below 2^53: nine digits at a time. */
  method U64toa(buf: array<char>, q0: nat, n: nat) returns (q: nat)
    requires n < TWO53 && q0 + |Integer(n, 10)| <= buf.Length
    modifies buf
    ensures Holds(buf[..], old(buf[..]), q0, q, Integer(n, 10))
  {
    hide Integer, Pow, Printed;
    if n < BASE {
      q := U32toa(buf, q0, n);
    } else {
      TenDigits();
      var n1, n2 := n / 1000000000, n % 1000000000;
      IntegerSplit(n, 10, 9);
      DivUnique(n2, 1000000000, 0, n2);
      PrintedMod(n, 10, 9, n2);
      ghost var was := buf[..];
      q := U32toa(buf, q0, n1);
      ghost var t := buf[..];
      LimbToA(buf, q, n2, 10, 9);
      assert buf[..q + 9] == buf[..q] + buf[q..q + 9];
      HoldsMore(t, buf[..], was, q0, q, q + 9, Integer(n1, 10), Printed(n, 10, 9));
      q := q + 9;
    }
  }

  /** How many digits of a radix 2^k a number has. */
  lemma BinaryLength(n: nat, radix: nat, k: nat, l: nat)
    requires 0 < n < TWO64 && 2 <= radix <= 36 && k > 0 && radix == Pow(2, k) && l == (64 - Clz64(n) + k - 1) / k
    ensures l > 0 && n < Pow(radix, l) && (l > 1 ==> Pow(radix, l - 1) <= n)
  {
    hide Pow, Clz64;
    var z := Clz64(n);
    Clz64Normalises(n);
    SixtyFour();
    if z > 63 {
      PowMonotone(2, 64, z);
      MulMono(1, n, Pow(2, z));
    }
    var b := 64 - z;
    PowAdd(2, z, b);
    PowAdd(2, z, b - 1);
    PowAdd(2, 63, 1);
    PowOne(2);
    Assoc(Pow(2, z), Pow(2, b), 1);
    Assoc(Pow(2, z), Pow(2, b - 1), 1);
    PowPositive(2, z);
    MulCancel(n, Pow(2, b), Pow(2, z));
    MulCancel(Pow(2, b - 1), n, Pow(2, z));
    DivIs(b + k - 1, k);
    PowMul(2, k, l);
    Assoc(k, l, 1);
    CeilingBounds(b, k, l);
    PowMonotone(2, b, k * l);
    if l > 1 {
      PowMul(2, k, l - 1);
      PowMonotone(2, k * (l - 1), b - 1);
    }
  }

  lemma SixtyFour()
    ensures Pow(2, 64) == TWO64 && Pow(2, 63) == 0x8000_0000_0000_0000
  {
    hide Pow;
    BaseIsPow();
    HalfLimb();
    PowAdd(2, 32, 32);
    PowAdd(2, 31, 32);
  }

  lemma CeilingBounds(b: nat, k: nat, l: nat)
    requires k > 0 && b > 0 && l == (b + k - 1) / k
    ensures l > 0 && b <= k * l && k * (l - 1) <= b - 1
  {
    DivIs(b + k - 1, k);
    Distrib(k, l, 1);
    if l <= 0 {
      MulMono(l, 0, k);
    }
  }

  /** u64toa_radix */
  method U64toaRadix(buf: array<char>, q0: nat, n: nat, radix: nat) returns (q: nat)
    requires 0 < n < TWO53 && 2 <= radix <= 36 && q0 + |Integer(n, radix)| <= buf.Length
    modifies buf
    ensures Holds(buf[..], old(buf[..]), q0, q, Integer(n, radix))
  {
    hide Integer, Pow, Printed, Clz64, BoundsOf;
    if radix == 10 {
      q := U64toa(buf, q0, n);
    } else if PowerOfTwo(radix) {
      var radixBits := RadixBitsOf(radix);
      Clz64Normalises(n);
      PowPositive(2, Clz64(n));
      ClzSmall(n);
      var l := (64 - Clz64(n) + radixBits - 1) / radixBits;
      BinaryLength(n, radix, radixBits, l);
      IntegerIsPrinted(n, radix, l);
      LimbToA(buf, q0, n, radix, l);
      q := q0 + l;
      assert buf[..q] == buf[..q0] + buf[q0..q];
    } else {
      EnoughDigits(radix);
      PowMonotone(radix, MaxDigits(radix) - 1, 41) by {
        LongestDigits(radix);
      }
      var s := IntegerDigits(n, radix, 41);
      q := PutText(buf, q0, s);
    }
  }

  lemma ClzSmall(n: nat)
    requires 0 < n < TWO53
    ensures Clz64(n) <= 63
  {
    hide Pow, Clz64;
    Clz64Normalises(n);
    SixtyFour();
    if Clz64(n) > 63 {
      PowMonotone(2, 64, Clz64(n));
      MulMono(1, n, Pow(2, Clz64(n)));
    }
  }

  lemma LongestDigits(radix: nat)
    requires 2 <= radix <= 36 && !PowerOfTwo(radix)
    ensures MaxDigits(radix) <= 41
  {
  }

  /** The exponent behind the digits; `e` is the exponent of the first digit. */
  method PutExponent(buf: array<char>, q0: nat, e: int, radix: nat) returns (q: nat)
    requires 2 <= radix <= 36 && -2000 < e < 2000 && q0 + |ExponentText(e, radix)| <= buf.Length
    modifies buf
    ensures Holds(buf[..], old(buf[..]), q0, q, ExponentText(e, radix))
  {
    hide Integer;
    ghost var was := buf[..];
    var x := e;
    var mark := '@';
    if radix == 10 {
      mark := 'e';
    } else if PowerOfTwo(radix) && Ctz(radix) <= 4 {
      x := x * Ctz(radix);
      mark := 'p';
    }
    q := PutText(buf, q0, [mark]);
    ghost var t := buf[..];
    if x < 0 {
      q := PutChar(buf, q, '-');
      HoldsMore(t, buf[..], was, q0, q - 1, q, [mark], ['-']);
      x := -x;
    } else {
      q := PutChar(buf, q, '+');
      HoldsMore(t, buf[..], was, q0, q - 1, q, [mark], ['+']);
    }
    t := buf[..];
    ghost var q1 := q;
    q := U32toa(buf, q, x);
    HoldsMore(t, buf[..], was, q0, q1, q, [mark] + [if ExponentValue(e, radix) < 0 then '-' else '+'], Integer(x, 10));
  }

  /** The number in the exponent: of the radix, or of 2 behind p. */
  function ExponentValue(e: int, radix: nat): int
    requires 2 <= radix <= 36
  {
    if radix != 10 && PowerOfTwo(radix) && Ctz(radix) <= 4 then e * Ctz(radix) else e
  }

  /** d.ddd, then the exponent. */
  method PutExponential(buf: array<char>, q0: nat, tmp1: Bignum, p: nat, e: int, radix: nat) returns (q: nat)
    requires tmp1.Valid() && 2 <= radix <= 36 && p > 0 && -1999 < e < 2000
    requires q0 + |WithDot(Printed(tmp1.Num(), radix, p), 1)| + |ExponentText(e - 1, radix)| < buf.Length
    modifies buf, tmp1`len, tmp1.tab
    ensures Holds(buf[..], old(buf[..]), q0, q, WithDot(Printed(old(tmp1.Num()), radix, p), 1) + ExponentText(e - 1, radix))
  {
    hide Printed, ExponentText;
    ghost var was, digits := buf[..], Printed(tmp1.Num(), radix, p);
    var len := OutputDigits(buf, q0, tmp1, radix, p, 1);
    q := q0 + len;
    assert buf[..q] == buf[..q0] + buf[q0..q];
    ghost var t, q1 := buf[..], q;
    q := PutExponent(buf, q, e - 1, radix);
    HoldsMore(t, buf[..], was, q0, q1, q, WithDot(digits, 1), ExponentText(e - 1, radix));
  }

  /** 0.000ddd */
  method PutFraction(buf: array<char>, q0: nat, tmp1: Bignum, p: nat, zeros: nat, radix: nat) returns (q: nat)
    requires tmp1.Valid() && 2 <= radix <= 36 && p > 0 && q0 + 2 + zeros + p < buf.Length
    modifies buf, tmp1`len, tmp1.tab
    ensures Holds(buf[..], old(buf[..]), q0, q, ['0', '.'] + ZeroChars(zeros) + Printed(old(tmp1.Num()), radix, p))
  {
    hide Printed;
    ghost var was, digits := buf[..], Printed(tmp1.Num(), radix, p);
    q := PutText(buf, q0, ['0', '.']);
    ghost var t, q1 := buf[..], q;
    q := PutZeros(buf, q, zeros);
    HoldsMore(t, buf[..], was, q0, q1, q, ['0', '.'], ZeroChars(zeros));
    t, q1 := buf[..], q;
    var len := OutputDigits(buf, q, tmp1, radix, p, p);
    q := q + len;
    assert buf[..q] == buf[..q1] + buf[q1..q];
    HoldsMore(t, buf[..], was, q0, q1, q, ['0', '.'] + ZeroChars(zeros), digits);
  }

  /** The output part of js_dtoa. */
  method PutNumber(buf: array<char>, q0: nat, tmp1: Bignum, p: nat, e: int, radix: nat, mode: ExpMode) returns (q: nat)
    requires tmp1.Valid() && 2 <= radix <= 36 && p > 0 && -1999 < e < 2000
    requires q0 + |Layout(Printed(tmp1.Num(), radix, p), e, radix, mode)| < buf.Length
    modifies buf, tmp1`len, tmp1.tab
    ensures Holds(buf[..], old(buf[..]), q0, q, Layout(Printed(old(tmp1.Num()), radix, p), e, radix, mode))
  {
    hide Printed, ExponentText;
    var eMax := MaxDigits(radix) + 4;
    if mode.ExpEnabled? || (mode.ExpAuto? && (e <= -6 || e > eMax)) {
      q := PutExponential(buf, q0, tmp1, p, e, radix);
    } else if e <= 0 {
      q := PutFraction(buf, q0, tmp1, p, -e, radix);
    } else {
      ghost var was, digits := buf[..], Printed(tmp1.Num(), radix, p);
      var len := OutputDigits(buf, q0, tmp1, radix, p, if p < e then p else e);
      q := q0 + len;
      assert buf[..q] == buf[..q0] + buf[q0..q];
      ghost var t, q1 := buf[..], q;
      q := PutZeros(buf, q, e - p);
      HoldsMore(t, buf[..], was, q0, q1, q, WithDot(digits, if p < e then p else e), ZeroChars(if e > p then e - p else 0));
      LayoutFixed(digits, e);
    }
  }

  lemma LayoutFixed(digits: seq<char>, e: nat)
    requires e > 0
    ensures var p := |digits|;
            WithDot(digits, if p < e then p else e) + ZeroChars(if e > p then e - p else 0) ==
            if e < p then WithDot(digits, e) else digits + ZeroChars(e - p)
  {
  }
}

module JsDtoa {
  import opened Arithmetic
  import opened Limbs
  import opened Logarithms
  import opened Powers
  import opened Bignums
  import opened PowerScaling
  import opened Binary64
  import opened FreeFormatFacts
  import opened FreeFormatSearch
  import opened FreeFormatLoop
  import opened Exponents
  import opened DigitStrings
  import opened DigitOutput
  import opened NumberReading
  import opened NumberRounding
  import opened DoubleBits
  import opened DtoaRoom
  import opened DoubleDecoding
  import opened NumberText

  /** An upper bound of the length of the output: js_dtoa_max_len, except where exponents are disabled. */
  function MaxLength(radix: nat, mode: ExpMode): nat
    requires 2 <= radix <= 36
  {
    if mode.ExpDisabled? then 1135 else MaxDigits(radix) + 8
  }

  /** The digits of a number other than zero: an integer of at most 53 bits is printed as such unless an exponent is asked for. */
  ghost predicate PrintsFinite(m: nat, e: int, radix: nat, mode: ExpMode, text: seq<char>)
    requires 2 <= radix <= 36
  {
    if IsInteger(m, e, mode) then PrintsInteger(m, e, radix, mode, text) else PrintsDigits(m, e, radix, mode, text)
  }

  ghost predicate IsInteger(m: nat, e: int, mode: ExpMode)
  {
    !mode.ExpEnabled? && 1 <= e <= 53 && (PowPositive(2, 53 - e); m % Pow(2, 53 - e) == 0)
  }

  /** The digits are those of an integer. */
  ghost predicate PrintsInteger(m: nat, e: int, radix: nat, mode: ExpMode, text: seq<char>)
    requires 2 <= radix <= 36
  {
    !mode.ExpEnabled? && 1 <= e <= 53 && exists n: nat :: n > 0 && n * Pow(2, 53 - e) == m && text == Integer(n, radix)
  }

  /** The digits are those the search finds, `p` of them, and they convert back. */
  ghost predicate PrintsDigits(m: nat, e: int, radix: nat, mode: ExpMode, text: seq<char>)
    requires 2 <= radix <= 36
  {
    exists mant: nat, p: nat, ee :: Found(m, e, radix, mant, p, ee) && text == Layout(Printed(mant, radix, p), ee, radix, mode)
  }

  ghost predicate Found(m: nat, e: int, radix: nat, mant: nat, p: nat, ee: int)
    requires 2 <= radix <= 36
  {
    SearchResult(mant, p, ee, m, e, radix, 1 + MulLog2Radix(e - 1, radix), MaxDigits(radix)) && 1 <= p <= MaxDigits(radix) && Pow(radix, p - 1) <= mant < Pow(radix, p) &&
    mant % radix != 0 && -1999 < ee < 2000
  }

  /** The sign of zero only shows on request. */
  function SignText(a: nat, minusZero: bool): seq<char>
  {
    if a >= SIGN_BIT && (a % SIGN_BIT != 0 || minusZero) then ['-'] else []
  }

  /** The text of a double, its bits given. */
  ghost predicate Prints(a: nat, radix: nat, mode: ExpMode, minusZero: bool, s: seq<char>)
    requires 2 <= radix <= 36
  {
    var abs := a % SIGN_BIT;
    var sign := SignText(a, minusZero);
    if abs > INFINITY_BITS then s == "NaN"
    else if abs == INFINITY_BITS then s == sign + "Infinity"
    else if abs == 0 then s == sign + Layout(['0'], 1, radix, mode)
    else
      var (m, e) := Decode(abs);
      |s| >= |sign| && s[..|sign|] == sign &&
      PrintsFinite(m, e, radix, mode, s[|sign|..])
  }

  /** The text is determined by the bits of the double. */
  lemma PrintsUnique(a: nat, radix: nat, mode: ExpMode, minusZero: bool, s: seq<char>, s': seq<char>)
    requires 2 <= radix <= 36 && Prints(a, radix, mode, minusZero, s) && Prints(a, radix, mode, minusZero, s')
    ensures s == s'
  {
    hide Decode, PrintsFinite, Layout;
    var abs, sign := a % SIGN_BIT, SignText(a, minusZero);
    if 0 < abs < INFINITY_BITS {
      var m, e := Decode(abs).0, Decode(abs).1;
      FiniteUnique(m, e, radix, mode, s[|sign|..], s'[|sign|..]);
      assert s == sign + s[|sign|..] && s' == sign + s'[|sign|..];
    }
  }

  lemma FiniteUnique(m: nat, e: int, radix: nat, mode: ExpMode, t: seq<char>, t': seq<char>)
    requires 2 <= radix <= 36 && PrintsFinite(m, e, radix, mode, t) && PrintsFinite(m, e, radix, mode, t')
    ensures t == t'
  {
    hide Pow, Layout, Printed, Integer, SearchResult, MulLog2Radix;
    if IsInteger(m, e, mode) {
      var n: nat :| n > 0 && n * Pow(2, 53 - e) == m && t == Integer(n, radix);
      var n': nat :| n' > 0 && n' * Pow(2, 53 - e) == m && t' == Integer(n', radix);
      PowPositive(2, 53 - e);
      DivUnique(m, Pow(2, 53 - e), n, 0);
      DivUnique(m, Pow(2, 53 - e), n', 0);
    } else {
      var mant: nat, p: nat, ee :| Found(m, e, radix, mant, p, ee) && t == Layout(Printed(mant, radix, p), ee, radix, mode);
      var mant': nat, p': nat, ee' :| Found(m, e, radix, mant', p', ee') && t' == Layout(Printed(mant', radix, p'), ee', radix, mode);
      SearchUnique(mant, p, ee, mant', p', ee', m, e, radix, 1 + MulLog2Radix(e - 1, radix), MaxDigits(radix));
    }
  }

  /** The length of the layout. */
  lemma LayoutBound(digits: seq<char>, e: int, radix: nat, mode: ExpMode)
    requires 2 <= radix <= 36 && 0 < |digits| <= MaxDigits(radix) && -1075 <= e <= 1030
    ensures |Layout(digits, e, radix, mode)| + 1 <= MaxLength(radix, mode)
  {
    hide Integer, Ctz;
    ExponentLength(e - 1, radix);
  }

  lemma ExponentLength(e: int, radix: nat)
    requires 2 <= radix <= 36 && -1081 <= e <= 1029
    ensures |ExponentText(e, radix)| <= 6
  {
    hide Integer;
    CtzBits(radix);
    var x := ExponentValue(e, radix);
    FourDigits();
    IntegerLength(if x < 0 then -x else x, 10, 4);
  }

  lemma CtzBits(radix: nat)
    requires 2 <= radix <= 36
    ensures 0 <= Ctz(radix) <= 5
  {
  }

  lemma FourDigits()
    ensures Pow(10, 4) == 10000
  {
  }

  /** The fast path for integers. */
  lemma IntegerCase(m: nat, e: int, radix: nat)
    requires Canonical(m, e) && 1 <= e <= 53 && 2 <= radix <= 36 && Pow(2, 53 - e) > 0 && m % Pow(2, 53 - e) == 0
    ensures Pow(2, 53 - e) > 0
    ensures var n := m / Pow(2, 53 - e); 0 < n < TWO53 && n * Pow(2, 53 - e) == m && |Integer(n, radix)| + 1 <= MaxDigits(radix)
  {
    hide Pow, Integer;
    PowPositive(2, Spare(e));
    var p := Pow(2, 53 - e);
    PowPositive(2, 53 - e);
    DivIs(m, p);
    var n := m / p;
    if n <= 0 {
      MulMono(n, 0, p);
    }
    MulAtLeast(n, p);
    EnoughDigits(radix);
    IntegerLength(n, radix, MaxDigits(radix) - 1);
  }

  /** The digits of a finite number other than zero. */
  method PutFinite(buf: array<char>, q0: nat, m: nat, e: int, radix: nat, mode: ExpMode) returns (q: nat, ghost text: seq<char>)
    requires 2 <= radix <= 36 && Canonical(m, e) && e <= 1024 && q0 <= 1 && buf.Length > MaxLength(radix, mode)
    modifies buf
    ensures Holds(buf[..], old(buf[..]), q0, q, text) && q <= MaxLength(radix, mode)
    ensures PrintsFinite(m, e, radix, mode, text)
  {
    hide Canonical, Layout, Printed, Pow, Integer, SearchResult, MulLog2Radix, Roomy, Bracket, OddRadix, Ctz;
    CanonicalSize(m, e);
    if !mode.ExpEnabled? && e >= 1 && e <= 53 {
      PowPositive(2, 53 - e);
      if m % Pow(2, 53 - e) == 0 {
        IntegerCase(m, e, radix);
        var n := m / Pow(2, 53 - e);
        q := U64toaRadix(buf, q0, n, radix);
        text := Integer(n, radix);
        return;
      }
    }
    var e0 := 1 + MulLog2Radix(e - 1, radix);
    CanonicalRange(m, e);
    MulLog2RadixExact(e - 1, radix);
    FreeRoom(radix, e0, e);
    RadixParts(radix);
    ExponentRange(radix, e0, e);
    SmallExponents(radix);
    var tmp1 := new Bignum(DBIGNUM_LEN_MAX);
    var mant, p, ee := FreeFormat(tmp1, m, e, radix, OddRadix(radix), Ctz(radix), e0);
    DigitsFit64(radix, p);
    tmp1.SetU64(mant);
    text := Layout(Printed(mant, radix, p), ee, radix, mode);
    LayoutBound(Printed(mant, radix, p), ee, radix, mode);
    q := PutNumber(buf, q0, tmp1, p, ee, radix, mode);
    assert Found(m, e, radix, mant, p, ee);
  }

  lemma CanonicalRange(m: nat, e: int)
    requires Canonical(m, e)
    ensures -1073 <= e
  {
    PowPositive(2, Spare(e));
  }

  lemma SmallExponents(radix: nat)
    requires 2 <= radix <= 36
    ensures MaxExponent(radix) <= 1024 && MinExponent(radix) <= 1075
  {
  }

  /** Zero goes through the same output code. */
  method PutZero(buf: array<char>, q0: nat, radix: nat, mode: ExpMode) returns (q: nat)
    requires 2 <= radix <= 36 && q0 <= 1 && buf.Length > MaxLength(radix, mode)
    modifies buf
    ensures Holds(buf[..], old(buf[..]), q0, q, Layout(['0'], 1, radix, mode)) && q <= MaxLength(radix, mode)
  {
    hide Layout;
    var tmp1 := new Bignum(DBIGNUM_LEN_MAX);
    PrintedStep(0, radix, 1);
    assert Printed(0, radix, 1) == ['0'];
    LayoutBound(['0'], 1, radix, mode);
    q := PutNumber(buf, q0, tmp1, 1, 1, radix, mode);
  }

  lemma PrintsSigned(a: nat, radix: nat, mode: ExpMode, minusZero: bool, text: seq<char>, t: seq<char>, u: seq<char>, q: nat)
    requires 2 <= radix <= 36 && a % SIGN_BIT <= INFINITY_BITS
    requires |t| >= |SignText(a, minusZero)| && t[..|SignText(a, minusZero)|] == SignText(a, minusZero)
    requires Holds(u, t, |SignText(a, minusZero)|, q, text)
    requires a % SIGN_BIT == INFINITY_BITS ==> text == "Infinity"
    requires a % SIGN_BIT == 0 ==> text == Layout(['0'], 1, radix, mode)
    requires 0 < a % SIGN_BIT < INFINITY_BITS ==>
               var (m, e) := Decode(a % SIGN_BIT); PrintsFinite(m, e, radix, mode, text)
    ensures q <= |u| && Prints(a, radix, mode, minusZero, u[..q])
  {
    hide Decode, PrintsFinite, Layout;
    var s, sign := u[..q], SignText(a, minusZero);
    assert s == sign + text;
    assert s[|sign|..] == text;
  }

  /** js_dtoa in free format, on the bits of the double. */
  method Dtoa(buf: array<char>, a: nat, radix: nat, mode: ExpMode, minusZero: bool) returns (q: nat)
    requires a < TWO64 && 2 <= radix <= 36 && buf.Length > MaxLength(radix, mode)
    modifies buf
    ensures q <= MaxLength(radix, mode) && Prints(a, radix, mode, minusZero, buf[..q]) && buf[q] == '\0'
  {
    hide Decode, Assemble, PrintsFinite, Canonical, Layout, Pow;
    var neg, abs := a >= SIGN_BIT, a % SIGN_BIT;
    q := 0;
    if abs > INFINITY_BITS {
      q := PutText(buf, q, "NaN");
      buf[q] := '\0';
      return;
    }
    if neg && (abs != 0 || minusZero) {
      q := PutChar(buf, q, '-');
    }
    ghost var t := buf[..];
    ghost var text := "Infinity";
    assert t[..q] == SignText(a, minusZero);
    if abs == INFINITY_BITS {
      q := PutText(buf, q, "Infinity");
    } else if abs == 0 {
      text := Layout(['0'], 1, radix, mode);
      q := PutZero(buf, q, radix, mode);
    } else {
      DecodeAssemble(abs);
      var m, e := Decode(abs).0, Decode(abs).1;
      q, text := PutFinite(buf, q, m, e, radix, mode);
    }
    PrintsSigned(a, radix, mode, minusZero, text, t, buf[..], q);
    buf[q] := '\0';
  }
}
