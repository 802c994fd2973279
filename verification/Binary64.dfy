// round_to_d and mul_pow_round_to_d: the nearest binary64 number, gradual underflow included.
module Binary64 {
  import opened Arithmetic
  import opened Limbs
  import opened LimbBits
  import opened Rounding
  import opened Powers
  import opened Bignums
  import opened PowerScaling

  const TWO52 := 0x10_0000_0000_0000
  const TWO53 := 0x20_0000_0000_0000

  /** The bits of precision of binary64 for numbers in [2^(e-1), 2^e); fewer and fewer for subnormals. */
  function Precision(e: int): int { if e < -1021 then 53 - (-1021 - e) else 53 }

  /** 2^(e-1) <= x / y < 2^e */
  predicate InBinade(x: nat, y: nat, e: int)
  {
    RoundsTo(1, x, y, 1 - e, TowardZero)
  }

  /** m * 2^a == q * 2^b */
  predicate SameNumber(m: nat, a: int, q: nat, b: int)
  {
    Scale(m, a - b) == Scale(q, b - a)
  }

  /** The mantissa and exponent returned for the multiple `q` of the unit in the last place of the binade. */
  predicate Represents(m: nat, e: int, q: nat, binade: int)
  {
    (m == 0 && q == 0) || (TWO52 <= m < TWO53 && SameNumber(m, e - 53, q, binade - Precision(binade)))
  }

  /** `m * 2^(e - 53)` is `x / y` rounded to binary64 (without the bound on large exponents). */
  ghost predicate IsDouble(m: nat, e: int, x: nat, y: nat, mode: Mode)
  {
    exists q: nat, binade :: RoundsInBinade(q, binade, x, y, mode) && Represents(m, e, q, binade)
  }

  predicate RoundsInBinade(q: nat, binade: int, x: nat, y: nat, mode: Mode)
  {
    InBinade(x, y, binade) && RoundsTo(q, x, y, Precision(binade) - binade, mode)
  }

  lemma RoundBounds(q: int, n: int, d: int, lo: int, hi: int, mode: Mode)
    requires d > 0 && IsRound(q, n, d, mode)
    ensures lo * d <= n ==> lo <= q
    ensures n <= hi * d ==> q <= hi
    ensures 2 * n < d && 0 <= n ==> q == 0
  {
    if q < lo {
      MulMono(q + 1, lo, d);
      Distrib(d, q, 1);
    }
    if q > hi {
      MulMono(hi + 1, q, d);
      Distrib(d, hi, 1);
    }
    if q > 0 {
      MulMono(1, q, d);
    } else if q < 0 {
      MulMono(q, -1, d);
    }
  }

  lemma Twos()
    ensures Pow(2, 52) == TWO52 && Pow(2, 53) == TWO53
  {
    hide Pow;
    BaseIsPow();
    SplitBase(20);
    PowOne(2);
    assert Pow(2, 20) == 0x10_0000 by {
      TwentyBits();
    }
    PowAdd(2, 32, 20);
    PowAdd(2, 52, 1);
  }

  lemma TwentyBits()
    ensures Pow(2, 20) == 0x10_0000
  {
    assert Pow(2, 10) == 1024;
    PowAdd(2, 10, 10);
  }

  /** What the shift of round_to_d does to a number of `n` bits. */
  predicate Shifted(q: nat, w: nat, sh: int, mode: Mode)
  {
    (sh > 0 ==> IsRound(q, w, Pow(2, sh), mode)) && (sh <= 0 ==> q == w * Pow(2, -sh))
  }

  /** How large the rounded number can be. */
  lemma ShiftedBounds(q: nat, w: nat, n: nat, prec: int, mode: Mode)
    requires n > 0 && Pow(2, n - 1) <= w < Pow(2, n) && prec <= 53 && Shifted(q, w, n - prec, mode)
    ensures prec > 0 ==> Pow(2, prec - 1) <= q <= Pow(2, prec)
    ensures prec == 0 ==> q <= 1
    ensures prec < 0 ==> q == 0
  {
    hide Pow, IsRound;
    var sh := n - prec;
    if sh > 0 {
      PowPositive(2, sh);
      if prec > 0 {
        PowAdd(2, prec - 1, sh);
        PowAdd(2, prec, sh);
        RoundBounds(q, w, Pow(2, sh), Pow(2, prec - 1), Pow(2, prec), mode);
      } else if prec == 0 {
        RoundBounds(q, w, Pow(2, sh), 0, 1, mode);
      } else {
        PowMonotone(2, n + 1, sh);
        PowAdd(2, n, 1);
        PowOne(2);
        RoundBounds(q, w, Pow(2, sh), 0, 0, mode);
      }
    } else {
      PowPositive(2, -sh);
      PowAdd(2, n - 1, -sh);
      PowAdd(2, n, -sh);
      MulMono(Pow(2, n - 1), w, Pow(2, -sh));
      MulMono(w, Pow(2, n), Pow(2, -sh));
    }
  }

  /** Left-justifying the rounded number in 53 bits, and the carry out of them. */
  lemma Justified(q: nat, prec: int, binade: int)
    requires prec == Precision(binade)
    requires prec > 0 ==> Pow(2, prec - 1) <= q <= Pow(2, prec)
    requires prec == 0 ==> q <= 1
    requires prec < 0 ==> q == 0
    ensures var m := q * Pow(2, 53 - prec);
            m <= TWO53 && Represents(if m >= TWO53 then m / 2 else m, if m >= TWO53 then binade + 1 else binade, q, binade)
  {
    hide Pow;
    var p := Pow(2, 53 - prec);
    var m := q * p;
    Twos();
    PowOne(2);
    PowPositive(2, 53 - prec);
    if prec > 0 {
      PowAdd(2, prec - 1, 53 - prec);
      PowAdd(2, prec, 53 - prec);
      MulMono(Pow(2, prec - 1), q, p);
      MulMono(q, Pow(2, prec), p);
    }
    if q > 0 && m < TWO53 {
      assert binade - 53 - (binade - prec) == prec - 53;
      assert Scale(m, prec - 53) == m by {
        ScaleZero(m, prec - 53);
      }
    } else if q > 0 {
      JustifiedCarry(q, prec, m, binade);
    }
  }

  lemma ScaleZero(x: nat, k: int)
    requires k <= 0
    ensures Scale(x, k) == x
  {
    PowOne(2);
  }

  lemma JustifiedCarry(q: nat, prec: int, m: nat, binade: int)
    requires prec == Precision(binade) && m == q * Pow(2, 53 - prec) == TWO53
    ensures SameNumber(m / 2, binade + 1 - 53, q, binade - prec)
  {
    hide Pow;
    PowOne(2);
    if prec == 53 {
      assert Scale(m / 2, 1) == m / 2 * Pow(2, 1);
      ScaleZero(q, -1);
    } else {
      PowAdd(2, 52 - prec, 1);
      Assoc(q, Pow(2, 52 - prec), 2);
      ScaleZero(m / 2, prec - 52);
    }
  }

  /** round_to_d: the mantissa and exponent of the nearest binary64 number of `a / 2^eOffset`. */
  method RoundToD(a: Bignum, eOffset: int, mode: Mode) returns (m: nat, e: int, ghost q: nat, ghost n: nat)
    requires a.Valid() && a.Normal() && a.len + 2 <= a.tab.Length
    modifies a`len, a.tab
    ensures old(a.Num()) == 0 ==> m == 0
    ensures old(a.Num()) > 0 ==> n > 0 && Pow(2, n - 1) <= old(a.Num()) < Pow(2, n)
    ensures old(a.Num()) > 0 ==> Shifted(q, old(a.Num()), n - Precision(n - eOffset), mode) && Represents(m, e, q, n - eOffset)
  {
    hide Pow, IsRound, Represents;
    var log2 := a.FloorLog2();
    a.ZeroTest();
    if a.tab[0] == 0 && a.len == 1 {
      m, e, q, n := 0, 0, 0, 0;
      return;
    }
    n := log2 + 1;
    e := log2 + 1 - eOffset;
    var prec := if e < -1021 then 53 - (-1021 - e) else 53;
    ghost var w, binade := a.Num(), e;
    a.ShrRound(e + eOffset - prec, mode);
    q := a.Num();
    ShiftedBounds(q, w, n, prec, mode);
    SmallEnough(q, prec);
    m := a.GetU64();
    Justified(q, prec, binade);
    m := m * Pow(2, 53 - prec);
    if m >= TWO53 {
      m := m / 2;
      e := e + 1;
    }
  }

  lemma SmallEnough(q: nat, prec: int)
    requires prec <= 53 && (prec > 0 ==> q <= Pow(2, prec)) && (prec <= 0 ==> q <= 1)
    ensures q < TWO64
  {
    hide Pow;
    Twos();
    if prec > 0 {
      PowMonotone(2, prec, 53);
    }
  }

  /** mul_pow_round_to_d: `a * radix^f` as the nearest binary64 number. */
  method MulPowRoundToD(a: Bignum, radix1: Limb, rs: nat, f: int, mode: Mode) returns (m: nat, e: int)
    requires a.Valid() && a.Normal() && OddPart(radix1) && a.len + MulPowRoom(radix1, rs, f, false, 55) + 2 <= a.tab.Length
    modifies a`len, a.tab
    ensures old(a.Num()) == 0 ==> m == 0
    ensures var radix := radix1 * Pow(2, rs);
            old(a.Num()) > 0 ==> IsDouble(m, e, old(a.Num()) * Pow(radix, Up(f)), Pow(radix, Up(-f)), mode)
  {
    hide Pow, MulPowDone, Represents, Shifted, IsDouble;
    ghost var v := a.Num();
    var eOffset := MulPow(a, radix1, rs, f, false, 55);
    ghost var w := a.Num();
    ghost var q, n;
    m, e, q, n := RoundToD(a, eOffset, mode);
    ScaledSign(v, w, radix1, f, eOffset + f * rs);
    if v > 0 {
      RoundedScaled(q, w, v, radix1, rs, f, n, eOffset, m, e, mode);
    }
  }

  lemma ScaledSign(v: nat, w: nat, radix1: nat, f: int, l: int)
    requires MulPowDone(v, w, radix1, f, l) && (f < 0 && radix1 != 1 && v > 0 ==> w >= Pow(2, 55))
    ensures v > 0 <==> w > 0
  {
    hide Pow, Sticky, MulPowDone;
    PowPositive(2, 55);
    if v == 0 {
      ZeroScaled(w, radix1, f, l);
    } else if f >= 0 || radix1 == 1 {
      assert radix1 > 0 by {
        ScaledBase(v, w, radix1, f, l);
      }
      StaysPositive(v, w, radix1, f, l);
    }
  }

  lemma ScaledBase(v: nat, w: nat, radix1: nat, f: int, l: int)
    requires MulPowDone(v, w, radix1, f, l)
    ensures radix1 > 0
  {
  }

  lemma ZeroScaled(w: nat, radix1: nat, f: int, l: int)
    requires MulPowDone(0, w, radix1, f, l)
    ensures w == 0
  {
    hide Pow;
    DivUnique(0, Pow(radix1, Up(-f)), 0, 0);
  }

  lemma RoundedScaled(q: nat, w: nat, v: nat, radix1: nat, rs: nat, f: int, n: nat, eOffset: int, m: nat, e: int, mode: Mode)
    requires radix1 > 0 && MulPowDone(v, w, radix1, f, eOffset + f * rs) && (f < 0 && radix1 != 1 ==> w >= Pow(2, 55))
    requires n > 0 && Pow(2, n - 1) <= w < Pow(2, n)
    requires Shifted(q, w, n - Precision(n - eOffset), mode) && Represents(m, e, q, n - eOffset)
    ensures var radix := radix1 * Pow(2, rs); IsDouble(m, e, v * Pow(radix, Up(f)), Pow(radix, Up(-f)), mode)
  {
    hide Pow, MulPowDone, Represents, RoundsTo, IsRound;
    var binade := n - eOffset;
    if f < 0 && radix1 != 1 && n <= 55 {
      PowMonotone(2, n, 55);
    }
    RoundOnce(q, w, v, radix1, rs, f, Precision(binade) - binade, eOffset, mode);
    LeadingBit(w, n);
    RoundOnce(1, w, v, radix1, rs, f, 1 - binade, eOffset, TowardZero);
    var radix := radix1 * Pow(2, rs);
    assert RoundsInBinade(q, binade, v * Pow(radix, Up(f)), Pow(radix, Up(-f)), mode);
  }

  lemma LeadingBit(w: nat, n: nat)
    requires n > 0 && Pow(2, n - 1) <= w < Pow(2, n)
    ensures Shifted(1, w, n - 1, TowardZero)
  {
    assert Pow(2, n) == 2 * Pow(2, n - 1);
    PowOne(2);
  }

  // ---------- there is only one such number ----------

  lemma BinadeUnique(x: nat, y: nat, e: int, e': int)
    requires y > 0 && InBinade(x, y, e) && InBinade(x, y, e')
    ensures e == e'
  {
    if e < e' {
      BinadeOrder(x, y, e, e');
    } else if e' < e {
      BinadeOrder(x, y, e', e);
    }
  }

  lemma BinadeOrder(x: nat, y: nat, e: int, e': int)
    requires y > 0 && InBinade(x, y, e) && InBinade(x, y, e')
    ensures e >= e'
  {
    hide Pow, IsRound;
    if e < e' {
      // scale both to the common denominator y * 2^c
      var c := Up(e) + Up(e') + 2;
      var a, a' := c + 1 - e, c + 1 - e';
      PowPositive(2, c);
      MulAtLeast(y, Pow(2, c));
      RatioShift(1, x, y, a, c, TowardZero);
      RatioShift(1, x, y, a', c, TowardZero);
      Half(x, y * Pow(2, c), a, a');
    }
  }

  lemma Half(x: nat, d: nat, a: nat, a': nat)
    requires d > 0 && a > a' && IsRound(1, x * Pow(2, a), d, TowardZero)
    ensures !IsRound(1, x * Pow(2, a'), d, TowardZero)
  {
    hide Pow;
    PowMonotone(2, a' + 1, a);
    PowAdd(2, a', 1);
    PowOne(2);
    MulMono(2 * Pow(2, a'), Pow(2, a), x);
    Assoc(x, 2, Pow(2, a'));
    Assoc(2, x, Pow(2, a'));
  }

  lemma DoubleUnique(m: nat, e: int, m': nat, e': int, x: nat, y: nat, mode: Mode)
    requires y > 0 && IsDouble(m, e, x, y, mode) && IsDouble(m', e', x, y, mode)
    ensures m == m' && (m > 0 ==> e == e')
  {
    hide InBinade, RoundsTo, Represents;
    var q: nat, b :| RoundsInBinade(q, b, x, y, mode) && Represents(m, e, q, b);
    var q': nat, b' :| RoundsInBinade(q', b', x, y, mode) && Represents(m', e', q', b');
    BinadeUnique(x, y, b, b');
    RoundsToUnique(q, q', x, y, Precision(b) - b, mode);
    RepresentsUnique(m, e, m', e', q, b);
  }

  lemma RoundsToUnique(q: nat, q': nat, x: nat, y: nat, k: int, mode: Mode)
    requires y > 0 && RoundsTo(q, x, y, k, mode) && RoundsTo(q', x, y, k, mode)
    ensures q == q'
  {
    hide Pow, IsRound;
    PowPositive(2, Up(-k));
    MulAtLeast(y, Pow(2, Up(-k)));
    RoundUnique(q, q', Scale(x, k), Scale(y, -k), mode);
  }

  lemma RepresentsUnique(m: nat, e: int, m': nat, e': int, q: nat, b: int)
    requires Represents(m, e, q, b) && Represents(m', e', q, b)
    ensures m == m' && (m > 0 ==> e == e')
  {
    hide Pow, Scale;
    var u := b - Precision(b);
    if q == 0 {
      ZeroNumber(m, e - 53, u);
      ZeroNumber(m', e' - 53, u);
    } else {
      NonzeroNumber(m, e, q, b);
      NonzeroNumber(m', e', q, b);
      SameTrans(m, e - 53, q, u, m', e' - 53);
      NormalOrder(m, e, m', e');
      NormalOrder(m', e', m, e);
    }
  }

  lemma ZeroNumber(m: nat, a: int, u: int)
    ensures SameNumber(m, a, 0, u) ==> m == 0
  {
    hide Pow;
    PowPositive(2, Up(a - u));
    MulAtLeast(m, Pow(2, Up(a - u)));
  }

  lemma NonzeroNumber(m: nat, e: int, q: nat, b: int)
    requires q > 0 && Represents(m, e, q, b)
    ensures TWO52 <= m < TWO53 && SameNumber(m, e - 53, q, b - Precision(b))
  {
  }

  lemma SameTrans(m: nat, a: int, q: nat, u: int, m': nat, a': int)
    requires SameNumber(m, a, q, u) && SameNumber(m', a', q, u)
    ensures SameNumber(m, a, m', a')
  {
    hide Pow;
    var c := Up(-a) + Up(-a') + Up(-u);
    SameScaled(m, a, q, u, c);
    SameScaled(m', a', q, u, c);
    SameUnscaled(m, a, m', a', c);
  }

  lemma SameScaled(m: nat, a: int, q: nat, u: int, c: nat)
    requires SameNumber(m, a, q, u) && c + a >= 0 && c + u >= 0
    ensures m * Pow(2, c + a) == q * Pow(2, c + u)
  {
    hide Pow;
    var d := if a < u then c + a else c + u;
    PowTimes(m, Up(a - u), d, c + a);
    PowTimes(q, Up(u - a), d, c + u);
  }

  lemma SameUnscaled(m: nat, a: int, q: nat, u: int, c: nat)
    requires c + a >= 0 && c + u >= 0 && m * Pow(2, c + a) == q * Pow(2, c + u)
    ensures SameNumber(m, a, q, u)
  {
    hide Pow;
    var d := if a < u then c + a else c + u;
    PowTimes(m, Up(a - u), d, c + a);
    PowTimes(q, Up(u - a), d, c + u);
    PowPositive(2, d);
    MulCancel(m * Pow(2, Up(a - u)), q * Pow(2, Up(u - a)), Pow(2, d));
  }

  lemma NormalOrder(m: nat, e: int, m': nat, e': int)
    requires TWO52 <= m < TWO53 && TWO52 <= m' < TWO53 && SameNumber(m, e - 53, m', e' - 53)
    ensures e <= e' && (e == e' ==> m == m')
  {
    hide Pow;
    if e > e' {
      PowMonotone(2, 1, e - e');
      PowOne(2);
      MulMono(2, Pow(2, e - e'), m);
      assert Scale(m, e - 53 - (e' - 53)) == m * Pow(2, e - e');
      ScaleZero(m', e' - e);
    } else if e == e' {
      ScaleZero(m, 0);
      ScaleZero(m', 0);
    }
  }

  // ---------- only the ratio counts ----------

  lemma ScalePositive(y: nat, k: int)
    requires y > 0
    ensures Scale(y, k) > 0
  {
    hide Pow;
    PowPositive(2, Up(k));
    MulAtLeast(y, Pow(2, Up(k)));
  }

  /** Rounding depends on the ratio alone. */
  lemma RoundRatio(q: int, n: nat, d: nat, n': nat, d': nat, mode: Mode)
    requires d > 0 && d' > 0 && n * d' == n' * d && IsRound(q, n, d, mode)
    ensures IsRound(q, n', d', mode)
  {
    hide IsRound;
    RoundScale(q, n, d, d', mode);
    RoundScale(q, n', d', d, mode);
    Assoc(d, d', 1);
  }

  lemma RoundsToRatio(q: nat, x: nat, y: nat, x': nat, y': nat, k: int, mode: Mode)
    requires y > 0 && y' > 0 && x * y' == x' * y && RoundsTo(q, x, y, k, mode)
    ensures RoundsTo(q, x', y', k, mode)
  {
    hide Pow, IsRound;
    ScalePositive(y, -k);
    ScalePositive(y', -k);
    Interchange(x, Pow(2, Up(k)), y', Pow(2, Up(-k)));
    Interchange(x', Pow(2, Up(k)), y, Pow(2, Up(-k)));
    RoundRatio(q, Scale(x, k), Scale(y, -k), Scale(x', k), Scale(y', -k), mode);
  }

  lemma IsDoubleRatio(m: nat, e: int, x: nat, y: nat, x': nat, y': nat, mode: Mode)
    requires y > 0 && y' > 0 && x * y' == x' * y && IsDouble(m, e, x, y, mode)
    ensures IsDouble(m, e, x', y', mode)
  {
    hide RoundsTo, Represents;
    var q: nat, binade :| RoundsInBinade(q, binade, x, y, mode) && Represents(m, e, q, binade);
    RoundsToRatio(q, x, y, x', y', Precision(binade) - binade, mode);
    RoundsToRatio(1, x, y, x', y', 1 - binade, TowardZero);
    assert RoundsInBinade(q, binade, x', y', mode);
  }
}
