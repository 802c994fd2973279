// mul_log2_radix, and the tables of exponents and digit counts that rest on the same logarithms.
module Exponents {
  import opened Arithmetic
  import opened Limbs
  import opened Powers
  import opened PowerScaling
  import opened Logarithms
  import opened FreeFormatFacts

  const MUL_LOG2_RADIX_BASE := 0x100_0000

  const mulLog2RadixTable: seq<nat> :=
    [0x000000, 0xa1849d, 0x000000, 0x6e40d2, 0x6308c9, 0x5b3065, 0x000000, 0x50c24e,
     0x4d104d, 0x4a0027, 0x4768ce, 0x452e54, 0x433d00, 0x418677, 0x000000, 0x3ea16b,
     0x3d645a, 0x3c43c2, 0x3b3b9a, 0x3a4899, 0x39680b, 0x3897b3, 0x37d5af, 0x372069,
     0x367686, 0x35d6df, 0x354072, 0x34b261, 0x342bea, 0x33ac62, 0x000000, 0x32bfd9,
     0x3251dd, 0x31e8d6, 0x318465]

  /** mul_log2_radix_table, for radix 2 to 36. */
  function Multiplier(radix: nat): nat
    requires 2 <= radix <= 36
  {
    mulLog2RadixTable[radix - 2]
  }

  /** Division of C: towards zero. */
  function TruncDiv(a: int, b: nat): int
    requires b > 0
  {
    if a >= 0 then a / b else -((-a) / b)
  }

  function RadixBits(radix: nat): (k: int)
    requires 2 <= radix <= 36
  {
    31 - Clz32(radix)
  }

  lemma RadixIsPower(radix: nat)
    requires 2 <= radix <= 36 && PowerOfTwo(radix)
    ensures 1 <= RadixBits(radix) <= 5 && radix == Pow(2, RadixBits(radix))
    ensures BoundsOf(radix) == Bounds(1, RadixBits(radix), 1, RadixBits(radix))
  {
    hide Clz32;
    Clz32Normalises(radix);
    BitCount(radix);
    SmallPowers();
    assert Pow(2, 4) == 16 && Pow(2, 5) == 32;
    var k := RadixBits(radix);
    if k > 5 {
      PowMonotone(2, 6, k);
    }
  }

  /** Shifting right by 24 bits rounds down, also below zero. */
  function MulLog2Radix(a: int, radix: nat): int
    requires 2 <= radix <= 36
  {
    if PowerOfTwo(radix) then
      var k := RadixBits(radix);
      if k > 0 then TruncDiv(if a < 0 then a - (k - 1) else a, k) else 0
    else a * Multiplier(radix) / MUL_LOG2_RADIX_BASE
  }

  lemma MultiplierAbove(radix: nat)
    requires 2 <= radix <= 36 && !PowerOfTwo(radix)
    ensures BoundsOf(radix).p1 * MUL_LOG2_RADIX_BASE < Multiplier(radix) * BoundsOf(radix).q1
  {
  }

  lemma MultiplierBelow(radix: nat)
    requires 2 <= radix <= 36 && !PowerOfTwo(radix)
    ensures Multiplier(radix) * BoundsOf(radix).q2 < BoundsOf(radix).p2 * MUL_LOG2_RADIX_BASE
  {
  }

  lemma Neighbours(radix: nat)
    requires 2 <= radix <= 36 && !PowerOfTwo(radix)
    ensures var r := BoundsOf(radix); r.p2 * r.q1 == r.p1 * r.q2 + 1 && r.q1 + r.q2 > 2048 && r.q1 > 0 && r.q2 > 0
  {
  }

  /** The multiplier lies between the bounds, which are neighbouring fractions. */
  lemma MultiplierBounds(radix: nat)
    requires 2 <= radix <= 36 && !PowerOfTwo(radix)
    ensures var r := BoundsOf(radix);
            r.p1 * MUL_LOG2_RADIX_BASE < Multiplier(radix) * r.q1 && Multiplier(radix) * r.q2 < r.p2 * MUL_LOG2_RADIX_BASE &&
            r.p2 * r.q1 == r.p1 * r.q2 + 1 && r.q1 + r.q2 > 2048 && r.q1 > 0 && r.q2 > 0
  {
    hide BoundsOf, Multiplier;
    MultiplierAbove(radix);
    MultiplierBelow(radix);
    Neighbours(radix);
  }

  /** No fraction with a denominator up to 2048 lies between the bounds. */
  lemma NothingBetween(k: int, a: nat, p1: nat, q1: nat, p2: nat, q2: nat)
    requires p2 * q1 == p1 * q2 + 1 && q1 + q2 > 2048 && a <= 2048
    ensures !(k * q1 > p1 * a && k * q2 < p2 * a)
  {
    var x, y := k * q1 - p1 * a, p2 * a - k * q2;
    if x >= 1 && y >= 1 {
      MulMono(1, x, q2);
      MulMono(1, y, q1);
      Weighted(k, a, p1, q1, p2, q2);
    }
  }

  lemma Weighted(k: int, a: int, p1: int, q1: int, p2: int, q2: int)
    requires p2 * q1 == p1 * q2 + 1
    ensures q2 * (k * q1 - p1 * a) + q1 * (p2 * a - k * q2) == a
  {
    Distrib(q2, k * q1, p1 * a);
    Distrib(q1, p2 * a, k * q2);
    Assoc(q2, k, q1);
    Assoc(k, q2, q1);
    Assoc(q1, k, q2);
    Assoc(k, q1, q2);
    Assoc(q1, p2, a);
    Assoc(q2, p1, a);
    Distrib(a, p1 * q2, 1);
  }

  /** Multiplying a comparison of fractions through. */
  lemma ThroughBelow(k: int, a: nat, t: nat, p: nat, q: nat)
    requires k * MUL_LOG2_RADIX_BASE <= a * t && t * q < p * MUL_LOG2_RADIX_BASE && a > 0 && q > 0
    ensures k * q < p * a
  {
    var c := MUL_LOG2_RADIX_BASE;
    MulMono(k * c, a * t, q);
    MulLess(a, t * q, p * c);
    Assoc(k, c, q);
    Assoc(k, q, c);
    Assoc(a, t, q);
    Assoc(a, p, c);
    Assoc(p, a, c);
    MulCancel(k * q, p * a, c);
  }

  lemma ThroughAbove(k: int, a: nat, t: nat, p: nat, q: nat)
    requires k * MUL_LOG2_RADIX_BASE >= a * t && t * q > p * MUL_LOG2_RADIX_BASE && a > 0 && q > 0
    ensures k * q > p * a
  {
    var c := MUL_LOG2_RADIX_BASE;
    MulMono(a * t, k * c, q);
    MulLess(a, p * c, t * q);
    Assoc(k, c, q);
    Assoc(k, q, c);
    Assoc(a, t, q);
    Assoc(a, p, c);
    Assoc(p, a, c);
    MulCancel(p * a, k * q, c);
  }

  /** A quotient that rounds down, compared with the bounds. */
  lemma FloorPower(radix: nat, k: int, a: nat)
    requires 2 <= radix <= 36 && !PowerOfTwo(radix) && 0 < a <= 2048
    requires k * MUL_LOG2_RADIX_BASE <= a * Multiplier(radix)
    ensures k > 0 ==> Pow(radix, k) < Pow(2, a)
  {
    hide Pow, Multiplier, BoundsOf;
    var r := BoundsOf(radix);
    MultiplierBounds(radix);
    CloseBounds(radix);
    ThroughBelow(k, a, Multiplier(radix), r.p2, r.q2);
    NothingBetween(k, a, r.p1, r.q1, r.p2, r.q2);
    if k > 0 {
      ProductFacts(k, r.q1);
      ProductFacts(r.p1, a);
      LessPower(radix, r.p1, 2, r.q1, k, a);
    }
  }

  lemma CeilingPower(radix: nat, k: int, a: nat)
    requires 2 <= radix <= 36 && !PowerOfTwo(radix) && 0 < a <= 2048
    requires k * MUL_LOG2_RADIX_BASE >= a * Multiplier(radix)
    ensures k > 0 && Pow(2, a) < Pow(radix, k)
  {
    hide Pow, Multiplier, BoundsOf;
    var r := BoundsOf(radix);
    MultiplierBounds(radix);
    CloseBounds(radix);
    ThroughAbove(k, a, Multiplier(radix), r.p1, r.q1);
    NothingBetween(k, a, r.p1, r.q1, r.p2, r.q2);
    MulNonneg(r.p1, a);
    if k <= 0 {
      MulMono(k, 0, r.q1);
    }
    ProductFacts(k, r.q2);
    ProductFacts(r.p2, a);
    MorePower(radix, r.p2, 2, r.q2, k, a);
  }

  /** mul_log2_radix is the exact floor of a / log2(radix), for every exponent of a double. */
  lemma MulLog2RadixExact(a: int, radix: nat)
    requires 2 <= radix <= 36 && -2048 <= a <= 2047
    ensures Bracket(radix, MulLog2Radix(a, radix) + 1, a + 1)
  {
    hide Pow, Multiplier, Over;
    if PowerOfTwo(radix) {
      RadixIsPower(radix);
      var k := RadixBits(radix);
      BinaryFloor(a, k);
      BinaryBracket(radix, k, MulLog2Radix(a, radix), a);
    } else {
      var k := MulLog2Radix(a, radix);
      DivIs(a * Multiplier(radix), MUL_LOG2_RADIX_BASE);
      if a > 0 {
        MulNonneg(a, Multiplier(radix));
        FloorPower(radix, k, a);
        Distrib(MUL_LOG2_RADIX_BASE, k, 1);
        CeilingPower(radix, k + 1, a);
        PositiveBracket(radix, k, a);
      } else if a < 0 {
        Assoc(-1, k, MUL_LOG2_RADIX_BASE);
        Assoc(-1, a, Multiplier(radix));
        CeilingPower(radix, -k, -a);
        Distrib(MUL_LOG2_RADIX_BASE, -k, 1);
        FloorPower(radix, -k - 1, -a);
        NegativeBracket(radix, -k, -a);
      } else {
        PositiveBracket0(radix);
      }
    }
  }

  lemma PositiveBracket(radix: nat, k: nat, a: nat)
    requires radix > 1 && a > 0 && (k > 0 ==> Pow(radix, k) < Pow(2, a)) && Pow(2, a) < Pow(radix, k + 1)
    ensures Bracket(radix, k + 1, a + 1)
  {
    hide Pow;
    PowOne(radix);
    PowOne(2);
    PowPositive(2, a);
    assert 1 - (a + 1) == 0 - a && Up(-(1 - (a + 1))) == a && Up(1 - (a + 1)) == 0;
    OverOf(radix, k, 0 - a, k, 0);
    OverOf(radix, 0 - k, a, 0, a);
    OverOf(radix, k + 1, 0 - a, k + 1, 0);
    OverOf(radix, 0 - (k + 1), a, 0, a);
  }

  lemma OverOf(b: nat, i: int, j: int, x: nat, y: nat)
    requires x == Up(i) && y == Up(j)
    ensures Over(b, i, j) == Pow(b, x) * Pow(2, y)
    ensures y == 0 ==> Over(b, i, j) == Pow(b, x)
    ensures x == 0 ==> Over(b, i, j) == Pow(2, y)
  {
    PowOne(2);
    PowOne(b);
  }

  lemma PositiveBracket0(radix: nat)
    requires radix > 1
    ensures Bracket(radix, 1, 1)
  {
    PowOne(radix);
    PowOne(2);
  }

  lemma NegativeBracket(radix: nat, j: nat, c: nat)
    requires radix > 1 && j > 0 && c > 0 && Pow(2, c) < Pow(radix, j) && (j > 1 ==> Pow(radix, j - 1) < Pow(2, c))
    ensures Bracket(radix, 1 - j, 1 - c)
  {
    hide Pow;
    PowOne(radix);
    PowOne(2);
    PowStrict(2, 0, c);
    assert 1 - j - 1 == 0 - j && 1 - (1 - c) == c;
    OverOf(radix, 0 - j, c, 0, c);
    OverOf(radix, j, 0 - c, j, 0);
    OverOf(radix, 1 - j, c, 0, c);
    OverOf(radix, j - 1, 0 - c, j - 1, 0);
    assert -(0 - j) == j && -(1 - j) == j - 1;
  }

  lemma BinaryFloor(a: int, k: nat)
    requires k > 0
    ensures var q := TruncDiv(if a < 0 then a - (k - 1) else a, k); q * k <= a < (q + 1) * k
  {
    if a >= 0 {
      DivIs(a, k);
      Distrib(k, a / k, 1);
    } else {
      var c := k - 1 - a;
      DivIs(c, k);
      var d := c / k;
      Assoc(-1, d, k);
      Distrib(k, -d, 1);
    }
  }

  lemma BinaryBracket(radix: nat, k: nat, q: int, a: int)
    requires k > 0 && radix == Pow(2, k) && q * k <= a < (q + 1) * k
    ensures Bracket(radix, q + 1, a + 1)
  {
    hide Pow;
    assert 1 - (a + 1) == -a && -(-a) == a;
    BinaryRatio(radix, k, q, -a, q * k);
    BinaryRatio(radix, k, q + 1, -a, (q + 1) * k);
  }

  /** In a power of two, a ratio compares like its exponent. */
  lemma BinaryRatio(radix: nat, k: nat, i: int, j: int, ik: int)
    requires radix == Pow(2, k) && ik == i * k
    ensures ik + j <= 0 ==> Over(radix, i, j) <= Under(radix, i, j)
    ensures ik + j > 0 ==> Over(radix, i, j) > Under(radix, i, j)
  {
    hide Pow;
    BinaryOver(radix, k, i, j);
    BinaryOver(radix, k, -i, -j);
    SignSplit(i, k);
    var x, y := k * Up(i) + Up(j), k * Up(-i) + Up(-j);
    if ik + j <= 0 {
      PowMonotone(2, x, y);
    } else {
      PowStrict(2, y, x);
    }
  }

  lemma BinaryOver(radix: nat, k: nat, i: int, j: int)
    requires radix == Pow(2, k)
    ensures k * Up(i) >= 0 && Over(radix, i, j) == Pow(2, k * Up(i) + Up(j))
  {
    hide Pow;
    MulNonneg(k, Up(i));
    PowMul(2, k, Up(i));
    PowAdd(2, k * Up(i), Up(j));
  }
}
