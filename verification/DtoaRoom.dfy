// The fixed buffers of js_dtoa are long enough for every double and every radix.
module DtoaRoom {
  import opened Arithmetic
  import opened Limbs
  import opened Logarithms
  import opened Powers
  import opened Bignums
  import opened PowerScaling
  import opened Binary64
  import opened FreeFormatFacts
  import opened FreeFormatLoop
  import opened NumberReading
  import opened NumberRounding

  /** Comparing 2^(e-1) with radix^E0, by the signs of both exponents. */
  lemma BracketAbove(b: nat, e0: int, e: int)
    requires b > 1 && Bracket(b, e0, e)
    ensures e >= 1 && e0 >= 0 ==> Pow(2, e - 1) < Pow(b, e0)
    ensures e < 1 && e0 <= 0 ==> Pow(b, -e0) < Pow(2, 1 - e)
    ensures e >= 1 ==> e0 > 0
  {
    hide Pow;
    PowOne(b);
    PowOne(2);
    PowPositive(b, Up(-e0));
    PowPositive(2, Up(e - 1));
    if e >= 1 && e0 <= 0 {
      MulAtLeast(Pow(b, Up(-e0)), Pow(2, Up(e - 1)));
    }
  }

  lemma BracketBelow(b: nat, e0: int, e: int)
    requires b > 1 && Bracket(b, e0, e)
    ensures e >= 1 && e0 >= 1 ==> Pow(b, e0 - 1) <= Pow(2, e - 1)
    ensures e < 1 ==> e0 <= 1
  {
    hide Pow;
    PowOne(b);
    PowOne(2);
    PowPositive(b, Up(e0 - 1));
    if e < 1 && e0 > 1 {
      PowStrict(b, 0, e0 - 1);
      PowPositive(2, 1 - e);
      MulAtLeast(Pow(b, e0 - 1), Pow(2, 1 - e));
    }
  }

  lemma PowOrder(b: nat, m: nat, n: nat)
    requires b > 1 && Pow(b, m) < Pow(b, n)
    ensures m < n
  {
    if n <= m {
      PowMonotone(b, n, m);
    }
  }

  /** The exponents that occur for doubles. */
  lemma ExponentRange(radix: nat, e0: int, e: int)
    requires 2 <= radix <= 36 && Bracket(radix, e0, e) && -1073 <= e <= 1024
    ensures -(MinExponent(radix) as int) < e0 <= MaxExponent(radix)
  {
    hide Pow, Bracket, MaxExponent, MinExponent;
    ExponentsBound(radix);
    BracketAbove(radix, e0, e);
    BracketBelow(radix, e0, e);
    MaxExponentTable(radix);
    MinExponentTable(radix);
    if e >= 1 {
      PowStrict(2, e - 1, 1024);
      PowOrder(radix, e0 - 1, MaxExponent(radix));
    } else if e0 <= 0 {
      PowMonotone(2, 1 - e, 1075);
      PowOrder(radix, -e0, MinExponent(radix));
    }
  }

  /** A power of the radix is at least that of its power of two. */
  lemma ShiftedPower(radix: nat, radix1: nat, rs: nat, n: nat)
    requires radix == radix1 * Pow(2, rs) && radix1 >= 1
    ensures rs * n >= 0 && Pow(2, rs * n) <= Pow(radix, n)
  {
    hide Pow;
    MulNonneg(rs, n);
    RadixPower(radix1, rs, n);
    PowPositive(radix1, n);
    MulAtLeast(Pow(2, rs * n), Pow(radix1, n));
    Assoc(Pow(2, rs * n), Pow(radix1, n), 1);
  }

  lemma DigitBits(radix: nat, p: nat)
    requires 2 <= radix <= 36 && p <= MaxDigits(radix)
    ensures Pow(radix, p) < Pow(2, 63)
  {
    hide Pow;
    EnoughDigits(radix);
    PowMonotone(radix, p, MaxDigits(radix));
    BaseIsPow();
    PowAdd(2, 31, 32);
    HalfLimb();
  }

  /** The value printed has few bits when it is scaled up to an integer. */
  lemma ScaledBits(radix: nat, radix1: nat, rs: nat, e0: int, ee: int, e: int, p: nat)
    requires 2 <= radix <= 36 && radix == radix1 * Pow(2, rs) && radix1 >= 1 && Bracket(radix, e0, e) && e0 <= ee
    requires 1 <= p <= MaxDigits(radix) && (ee <= p || radix1 == 1)
    ensures e + (p - ee) * rs <= 127
  {
    hide Pow, Bracket;
    BracketAbove(radix, e0, e);
    ShiftedPower(radix, radix1, rs, p);
    DigitBits(radix, p);
    PowOrder(2, rs * p, 63);
    Distrib(rs, p, ee);
    if e >= 1 {
      PowMonotone(radix, e0, ee);
      MulNonneg(rs, ee);
      if ee <= p {
        PowMonotone(radix, ee, p);
        PowOrder(2, e - 1, 63);
      } else {
        RadixPower(radix1, rs, ee);
        OnePow(ee);
        PowOrder(2, e - 1, rs * ee);
      }
    } else if ee <= 0 {
      ShiftedPower(radix, radix1, rs, -ee);
      PowMonotone(radix, -ee, -e0);
      PowOrder(2, rs * -ee, 1 - e);
      Assoc(rs, -1, ee);
    } else {
      MulNonneg(rs, ee);
    }
  }

  /** Dividing needs few guard bits beyond a limb per chunk. */
  lemma DividedBits(radix: nat, radix1: nat, rs: nat, e0: int, ee: int, e: int, p: nat, f: nat)
    requires 2 <= radix <= 36 && radix == radix1 * Pow(2, rs) && 2 <= radix1 <= 36 && Bracket(radix, e0, e) && e0 <= ee
    requires 1 <= p <= MaxDigits(radix) && f == ee - p
    ensures e <= 32 * Chunks(radix1, f) + f * rs + 64
  {
    hide Pow, Bracket, Chunks;
    var l := Chunks(radix1, f);
    BracketAbove(radix, e0, e);
    if e >= 1 {
      PowMonotone(radix, e0, ee);
      PowAdd(radix, f, p);
      DigitBits(radix, p);
      RadixPower(radix1, rs, f);
      PowerFitsLimbs(radix1, f);
      MulNonneg(rs, f);
      PowAdd(2, l * 32, rs * f);
      MulMono(Pow(radix1, f), Pow(2, l * 32), Pow(2, rs * f));
      PowAdd(2, l * 32 + rs * f, 63);
      PowPositive(radix, f);
      MulMono(Pow(radix, p), Pow(2, 63), Pow(radix, f));
      MulMono(Pow(radix, f), Pow(2, l * 32 + rs * f), Pow(2, 63));
      PowOrder(2, e - 1, l * 32 + rs * f + 63);
      Assoc(rs, f, 1);
    } else {
      MulNonneg(f, rs);
    }
  }

  /** Chunks of a scaling by at most the largest exponents. */
  lemma ChunkLimit(radix: nat, f: nat)
    requires 2 <= radix <= 36 && !PowerOfTwo(radix)
    requires f <= MaxExponent(radix) || f < MinExponent(radix) + MaxDigits(radix)
    ensures 2 <= OddRadix(radix) <= 35 && Chunks(OddRadix(radix), f) <= 44
  {
    hide MaxExponent, MinExponent, AtodMaxDigits, OddRadix, DigitsPerLimb, Chunks, MaxDigits;
    RadixParts(radix);
    RoomTable(radix);
    DigitsKept(radix);
    FewChunks(OddRadix(radix), f, 44);
  }

  lemma DigitsKept(radix: nat)
    requires 2 <= radix <= 36 && !PowerOfTwo(radix)
    ensures MaxDigits(radix) <= AtodMaxDigits(radix)
  {
  }

  /** DBIGNUM_LEN_MAX limbs are enough for every try of the free-format loop. */
  lemma FreeRoom(radix: nat, e0: int, e: int)
    requires 2 <= radix <= 36 && Bracket(radix, e0, e) && -1073 <= e <= 1024
    ensures 1 <= OddRadix(radix) <= 35 && Roomy(DBIGNUM_LEN_MAX, OddRadix(radix), Ctz(radix), e, e0, MaxDigits(radix))
  {
    hide Bracket, RoomFor, OddRadix, Ctz;
    RadixParts(radix);
    forall p: nat, ee: int | 1 <= p <= MaxDigits(radix) && e0 <= ee <= e0 + 1
      ensures RoomFor(DBIGNUM_LEN_MAX, OddRadix(radix), Ctz(radix), e, p, ee)
    {
      if PowerOfTwo(radix) {
        BinaryRoom(radix, e0, ee, e, p);
      } else {
        RoundRoom(radix, e0, ee, e, p);
        BackRoom(radix, e0, ee, e, p);
        EnoughRoom(radix, e, p, ee);
      }
    }
  }

  lemma EnoughRoom(radix: nat, e: int, p: nat, ee: int)
    requires 2 <= radix <= 36
    requires 2 + MulPowRoundRoom(OddRadix(radix), Ctz(radix), p - ee, e - 53) <= DBIGNUM_LEN_MAX
    requires 4 + MulPowRoom(OddRadix(radix), Ctz(radix), ee - p, false, 55) <= DBIGNUM_LEN_MAX
    ensures RoomFor(DBIGNUM_LEN_MAX, OddRadix(radix), Ctz(radix), e, p, ee)
  {
  }

  lemma BinaryRoom(radix: nat, e0: int, ee: int, e: int, p: nat)
    requires 2 <= radix <= 36 && PowerOfTwo(radix) && Bracket(radix, e0, e) && e0 <= ee <= e0 + 1 && 1 <= p <= MaxDigits(radix)
    ensures RoomFor(DBIGNUM_LEN_MAX, OddRadix(radix), Ctz(radix), e, p, ee)
  {
    hide Bracket, OddRadix, Ctz;
    RadixParts(radix);
    ScaledBits(radix, OddRadix(radix), Ctz(radix), e0, ee, e, p);
  }

  lemma RoundRoom(radix: nat, e0: int, ee: int, e: int, p: nat)
    requires 2 <= radix <= 36 && !PowerOfTwo(radix) && Bracket(radix, e0, e) && -1073 <= e <= 1024
    requires e0 <= ee <= e0 + 1 && 1 <= p <= MaxDigits(radix)
    ensures 1 <= OddRadix(radix) <= 35 && 2 + MulPowRoundRoom(OddRadix(radix), Ctz(radix), p - ee, e - 53) <= DBIGNUM_LEN_MAX
  {
    hide Bracket, OddRadix, Ctz, Chunks, MaxDigits, MaxExponent, MinExponent;
    RadixParts(radix);
    ExponentRange(radix, e0, e);
    if p >= ee {
      ChunkLimit(radix, p - ee);
      ScaledBits(radix, OddRadix(radix), Ctz(radix), e0, ee, e, p);
    } else {
      ChunkLimit(radix, ee - p);
      DividedBits(radix, OddRadix(radix), Ctz(radix), e0, ee, e, p, ee - p);
    }
  }

  lemma BackRoom(radix: nat, e0: int, ee: int, e: int, p: nat)
    requires 2 <= radix <= 36 && !PowerOfTwo(radix) && Bracket(radix, e0, e) && -1073 <= e <= 1024
    requires e0 <= ee <= e0 + 1 && 1 <= p <= MaxDigits(radix)
    ensures 1 <= OddRadix(radix) <= 35 && 4 + MulPowRoom(OddRadix(radix), Ctz(radix), ee - p, false, 55) <= DBIGNUM_LEN_MAX
  {
    hide Bracket, OddRadix, Ctz, Chunks, MaxDigits, MaxExponent, MinExponent;
    RadixParts(radix);
    ExponentRange(radix, e0, e);
    ChunkLimit(radix, if p >= ee then p - ee else ee - p);
  }
}
