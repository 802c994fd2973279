// mul_pow and mul_pow_round: scaling a bignum by a power of the radix, and rounding the result once.
module PowerScaling {
  import opened Arithmetic
  import opened Limbs
  import opened Rounding
  import opened Reciprocal
  import opened Powers
  import opened Bignums

  function Up(k: int): nat { if k > 0 then k else 0 }

  /** `q` is `x / y * 2^k` rounded. */
  predicate RoundsTo(q: int, x: nat, y: nat, k: int, mode: Mode)
  {
    IsRound(q, Scale(x, k), Scale(y, -k), mode)
  }

  /** `x * 2^k`, for `k` that is not negative. */
  function Scale(x: nat, k: int): nat { x * Pow(2, Up(k)) }

  lemma RatioShift(q: int, x: nat, y: nat, a: nat, b: nat, mode: Mode)
    requires y > 0
    ensures IsRound(q, x * Pow(2, a), y * Pow(2, b), mode) <==> RoundsTo(q, x, y, a - b, mode)
  {
    hide Pow, IsRound;
    var c := if a < b then a else b;
    PowPositive(2, c);
    PowPositive(2, Up(b - a));
    PowTimes(x, Up(a - b), c, a);
    PowTimes(y, Up(b - a), c, b);
    MulAtLeast(y, Pow(2, Up(b - a)));
    RoundScale(q, x * Pow(2, Up(a - b)), y * Pow(2, Up(b - a)), Pow(2, c), mode);
  }

  lemma PowTimes(x: nat, u: nat, c: nat, a: nat)
    requires a == u + c
    ensures x * Pow(2, a) == x * Pow(2, u) * Pow(2, c)
  {
    hide Pow;
    PowAdd(2, u, c);
    Assoc(x, Pow(2, u), Pow(2, c));
  }

  /** A power of the radix, and of its odd part. */
  lemma RadixPower(radix1: nat, rs: nat, n: nat)
    ensures Pow(radix1 * Pow(2, rs), n) == Pow(radix1, n) * Pow(2, rs * n)
  {
    hide Pow;
    PowProduct(radix1, Pow(2, rs), n);
    PowMul(2, rs, n);
  }

  /** The powers of two of the radix move into the exponent. */
  lemma RadixShift(q: int, m: nat, radix1: nat, rs: nat, f: int, e: int, mode: Mode)
    requires radix1 > 0 && RoundsTo(q, m * Pow(radix1, Up(f)), Pow(radix1, Up(-f)), e + f * rs, mode)
    ensures var radix := radix1 * Pow(2, rs); RoundsTo(q, m * Pow(radix, Up(f)), Pow(radix, Up(-f)), e, mode)
  {
    hide Pow, IsRound, Scale;
    PowPositive(radix1, Up(-f));
    MovedTerm(m, radix1, rs, Up(f), Up(e));
    MovedTerm(1, radix1, rs, Up(-f), Up(-e));
    SignSplit(f, rs);
    ScaleUp(m * Pow(radix1 * Pow(2, rs), Up(f)), e);
    ScaleUp(Pow(radix1 * Pow(2, rs), Up(-f)), -e);
    RatioShift(q, m * Pow(radix1, Up(f)), Pow(radix1, Up(-f)), rs * Up(f) + Up(e), rs * Up(-f) + Up(-e), mode);
  }

  lemma MovedTerm(m: nat, radix1: nat, rs: nat, n: nat, u: nat)
    ensures var radix := radix1 * Pow(2, rs);
            Scale(m * Pow(radix, n), u) == m * Pow(radix1, n) * Pow(2, rs * n + u) &&
            Scale(Pow(radix, n), u) == Pow(radix1, n) * Pow(2, rs * n + u)
  {
    hide Pow;
    RadixPower(radix1, rs, n);
    PowAdd(2, rs * n, u);
    MovedProduct(m, Pow(radix1, n), Pow(2, rs * n), Pow(2, u));
  }

  lemma ScaleUp(x: nat, k: int)
    ensures Scale(x, Up(k)) == Scale(x, k)
  {
  }

  lemma MovedProduct(m: int, x: int, y: int, z: int)
    ensures m * (x * y) * z == m * x * (y * z) && x * y * z == x * (y * z)
  {
    Assoc(m, x, y);
    Assoc(m * x, y, z);
    Assoc(x, y, z);
  }

  lemma SignSplit(f: int, rs: nat)
    ensures rs * Up(f) - rs * Up(-f) == f * rs
  {
    Assoc(f, rs, 1);
    Assoc(rs, -1, f);
  }

  /** The number of chunks of `DigitsPerLimb` digits. */
  function Chunks(radix1: nat, f: nat): nat
    requires 2 <= radix1 <= 36
  {
    DigitsFit(radix1);
    (f + DigitsPerLimb(radix1) - 1) / DigitsPerLimb(radix1)
  }

  lemma ChunkTaken(radix1: nat, f: nat)
    requires 2 <= radix1 <= 36 && f > 0
    ensures var d := DigitsPerLimb(radix1);
            var n := if f < d then f else d;
            n > 0 && Chunks(radix1, f) == Chunks(radix1, f - n) + 1
  {
    hide DigitsPerLimb, Pow;
    DigitsFit(radix1);
    CeilStep(f, DigitsPerLimb(radix1));
  }

  lemma CeilStep(f: nat, d: nat)
    requires f > 0 && d > 0
    ensures (f + d - 1) / d == ((if f < d then 0 else f - d) + d - 1) / d + 1
  {
    if f >= d {
      DivIs(f - 1, d);
      Distrib(d, (f - 1) / d, 1);
      DivUnique(f + d - 1, d, (f - 1) / d + 1, (f - 1) % d);
    } else {
      DivUnique(f + d - 1, d, 1, f - 1);
      DivUnique(d - 1, d, 0, d - 1);
    }
  }

  lemma ChunkPower(radix1: nat, n: nat)
    requires 2 <= radix1 <= 36 && radix1 % 2 == 1 && n <= DigitsPerLimb(radix1)
    ensures 0 < Pow(radix1, n) < BASE
  {
    hide Pow;
    DigitsFit(radix1);
    PowPositive(radix1, n);
    PowMonotone(radix1, n, DigitsPerLimb(radix1));
  }

  /** Multiplication by a power of an odd radix, a limb's worth of digits at a time. */
  method MultiplyByPower(a: Bignum, radix1: Limb, f0: nat)
    requires a.Valid() && 2 <= radix1 <= 36 && radix1 % 2 == 1 && a.len + Chunks(radix1, f0) <= a.tab.Length
    modifies a`len, a.tab
    ensures a.Valid() && a.Num() == old(a.Num()) * Pow(radix1, f0) && a.len <= old(a.len) + Chunks(radix1, f0)
    ensures old(a.Normal()) ==> a.Normal()
  {
    hide Pow, Chunks;
    var d := DigitsPerLimb(radix1);
    var f, b, n0 := f0, 0, 0;
    PowOne(radix1);
    PowOne(2);
    while f != 0
      invariant 0 <= f <= f0 && a.Valid() && a.len + Chunks(radix1, f) <= old(a.len) + Chunks(radix1, f0)
      invariant a.Num() == old(a.Num()) * Pow(radix1, f0 - f) && (old(a.Normal()) ==> a.Normal())
      invariant n0 > 0 ==> b == Pow(radix1, n0)
      decreases f
    {
      var n := if f < d then f else d;
      ChunkTaken(radix1, f);
      ChunkPower(radix1, n);
      if n != n0 {
        DigitsSmall(radix1);
        b := PowUi(radix1, n);
        DivUnique(Pow(radix1, n), TWO64, 0, Pow(radix1, n));
        n0 := n;
      }
      a.MulLimb(b);
      PowAdd(radix1, f0 - f, n);
      Assoc(old(a.Num()), Pow(radix1, f0 - f), Pow(radix1, n));
      f := f - n;
    }
  }

  /** The divisor and reciprocal kept from one chunk to the next. */
  ghost predicate Cached(radix1: nat, n: nat, b: Limb, bInv: Limb, shift: nat)
  {
    n > 0 ==> shift < LIMB_BITS && b == Pow(radix1, n) * Pow(2, shift) && Normalised(b) && Inverse(b, bInv)
  }

  /** Divides by one chunk; the reciprocal is computed anew only when the length of the chunk changes. */
  method DivideChunk(a: Bignum, radix1: Limb, n: nat, n0: nat, b0: Limb, bInv0: Limb, shift0: nat)
    returns (b: Limb, bInv: Limb, shift: nat, r: Limb)
    requires a.Valid() && 2 <= radix1 <= 36 && radix1 % 2 == 1 && 0 < n <= DigitsPerLimb(radix1) && Cached(radix1, n0, b0, bInv0, shift0)
    modifies a`len, a.tab
    ensures a.Valid() && a.Normal() && a.len <= old(a.len) && Cached(radix1, n, b, bInv, shift)
    ensures old(a.Num()) == a.Num() * Pow(radix1, n) + r && r < Pow(radix1, n)
  {
    hide Pow, Inverse, Normalised, DigitsPerLimb;
    ChunkPower(radix1, n);
    b, bInv, shift := b0, bInv0, shift0;
    if n != n0 {
      DigitsSmall(radix1);
      b, bInv, shift := PowUiInv(radix1, n);
    }
    r := a.DivLimb(b, bInv, shift, Pow(radix1, n));
  }

  /** Division by a power of an odd radix, a limb's worth of digits at a time; tells whether anything was left over. */
  method DivideByPower(a: Bignum, radix1: Limb, f0: nat) returns (inexact: bool)
    requires a.Valid() && 2 <= radix1 <= 36 && radix1 % 2 == 1 && f0 > 0
    modifies a`len, a.tab
    ensures a.Valid() && a.Normal() && Pow(radix1, f0) > 0 && a.len <= old(a.len)
    ensures a.Num() == old(a.Num()) / Pow(radix1, f0) && inexact == (old(a.Num()) % Pow(radix1, f0) != 0)
  {
    hide Pow, Inverse, Normalised, Cached, DigitsPerLimb, Chunks;
    var d := DigitsPerLimb(radix1);
    var f, b: Limb, bInv: Limb, shift: nat, n0 := f0, 0, 0, 0, 0;
    inexact := false;
    PowOne(radix1);
    NothingCached(radix1);
    while f != 0
      invariant 0 <= f <= f0 && a.Valid() && a.len <= old(a.len) && Pow(radix1, f0 - f) > 0 && (f < f0 ==> a.Normal())
      invariant a.Num() == old(a.Num()) / Pow(radix1, f0 - f) && inexact == (old(a.Num()) % Pow(radix1, f0 - f) != 0)
      invariant 0 <= n0 && Cached(radix1, n0, b, bInv, shift)
      decreases f
    {
      var n := if f < d then f else d;
      ChunkTaken(radix1, f);
      ghost var q := a.Num();
      var r;
      b, bInv, shift, r := DivideChunk(a, radix1, n, n0, b, bInv, shift);
      n0 := n;
      inexact := inexact || r != 0;
      NextChunk(old(a.Num()), radix1, f0 - f, n, q, a.Num(), r);
      f := f - n;
    }
  }

  lemma NothingCached(radix1: nat)
    ensures Cached(radix1, 0, 0, 0, 0)
  {
  }

  lemma NextChunk(v: nat, radix1: nat, j: nat, n: nat, q: nat, q': nat, r: nat)
    requires radix1 > 0 && Pow(radix1, j) > 0 && q == v / Pow(radix1, j) && q == q' * Pow(radix1, n) + r && r < Pow(radix1, n)
    ensures Pow(radix1, j + n) > 0 && q' == v / Pow(radix1, j + n)
    ensures v % Pow(radix1, j + n) == 0 <==> v % Pow(radix1, j) == 0 && r == 0
  {
    hide Pow;
    PowPositive(radix1, n);
    PowAdd(radix1, j, n);
    DivUnique(q, Pow(radix1, n), q', r);
    DivDiv(v, Pow(radix1, j), Pow(radix1, n));
  }

  /** Limbs that mul_pow may add to its argument. */
  function MulPowRoom(radix1: nat, rs: nat, f: int, isInt: bool, e: int): nat
    requires 1 <= radix1 <= 36
  {
    if radix1 == 1 then 0
    else if f >= 0 then Chunks(radix1, f)
    else var l := Chunks(radix1, -f);
         l + (31 + if isInt then Up(2 + e - (-f * rs + l * LIMB_BITS)) else Up(e + 1)) / 32
  }

  /** What mul_pow leaves behind: the scaled number, with a sticky bit when it had to divide; `l` counts the bits
      by which it was moved up first. */
  ghost predicate MulPowDone(v: nat, w: nat, radix1: nat, f: int, l: int)
  {
    l >= 0 && radix1 > 0 && Pow(radix1, Up(-f)) > 0 &&
    w == Sticky(v * Pow(radix1, Up(f)) * Pow(2, l), Pow(radix1, Up(-f)))
  }

  predicate OddPart(radix1: int) { 1 <= radix1 <= 35 && radix1 % 2 == 1 }

  lemma NoScaling(v: nat, f: int)
    ensures MulPowDone(v, v, 1, f, 0)
  {
    hide Pow;
    OnePow(Up(f));
    OnePow(Up(-f));
    PowOne(2);
  }

  lemma {:induction false} OnePow(n: nat)
    ensures Pow(1, n) == 1
  {
    if n > 0 {
      OnePow(n - 1);
    }
  }

  lemma ExactScaling(v: nat, radix1: nat, f: nat)
    requires radix1 > 0
    ensures MulPowDone(v, v * Pow(radix1, f), radix1, f, 0)
  {
    hide Pow;
    PowOne(radix1);
    PowOne(2);
  }

  /** Multiplies by `(radix1 * 2^rs)^f`; the result is off by the factor `2^eOffset`. */
  method MulPow(a: Bignum, radix1: Limb, rs: nat, f: int, isInt: bool, e: int) returns (eOffset: int)
    requires a.Valid() && a.Normal() && OddPart(radix1) && a.len + MulPowRoom(radix1, rs, f, isInt, e) <= a.tab.Length
    modifies a`len, a.tab
    ensures a.Valid() && a.Normal() && a.len <= old(a.len) + MulPowRoom(radix1, rs, f, isInt, e)
    ensures MulPowDone(old(a.Num()), a.Num(), radix1, f, eOffset + f * rs)
    ensures f >= 0 || radix1 == 1 ==> eOffset == -f * rs
    ensures f < 0 && radix1 != 1 && isInt ==> eOffset - e >= 2
    ensures f < 0 && radix1 != 1 && !isInt && e >= 0 && old(a.Num()) > 0 ==> a.Num() >= Pow(2, e)
  {
    hide Pow, Chunks, MulPowDone;
    eOffset := -f * rs;
    NoOffset(f, rs);
    if radix1 == 1 {
      NoScaling(a.Num(), f);
      return;
    }
    if f >= 0 {
      ExactScaling(a.Num(), radix1, f);
      MultiplyByPower(a, radix1, f);
    } else {
      var l := Chunks(radix1, -f);
      eOffset := eOffset + l * LIMB_BITS;
      var log2 := a.FloorLog2();
      var extraBits := if !isInt then Up(e - log2) else Up(2 + e - eOffset);
      eOffset := eOffset + extraBits;
      ghost var v := a.Num();
      a.ShrRound(-(l * LIMB_BITS + extraBits), TowardZero);
      if !isInt && e >= 0 && v > 0 {
        EnoughBits(v, radix1, -f, l, extraBits, log2, e);
      }
      var inexact := DivideByPower(a, radix1, -f);
      if inexact {
        a.SetLowBit();
      }
      ScaledDown(v, a.Num(), radix1, -f, l * LIMB_BITS + extraBits, inexact);
    }
  }

  lemma NoOffset(f: int, rs: nat)
    ensures -f * rs + f * rs == 0
  {
    Assoc(-1, f, rs);
  }

  lemma ScaledDown(v: nat, w: nat, radix1: nat, f: nat, l: nat, inexact: bool)
    requires radix1 > 0 && f > 0 && Pow(radix1, f) > 0
    requires inexact == (v * Pow(2, l) % Pow(radix1, f) != 0)
    requires var q := v * Pow(2, l) / Pow(radix1, f); w == if inexact then q / 2 * 2 + 1 else q
    ensures MulPowDone(v, w, radix1, 0 - f, l)
  {
    hide Pow;
    PowOne(radix1);
    assert v * Pow(radix1, Up(0 - f)) == v;
  }

  /** Moving up by a whole limb per chunk of digits makes room for the division. */
  lemma EnoughBits(v: nat, radix1: nat, f: nat, l: nat, extra: nat, log2: nat, e: nat)
    requires 2 <= radix1 <= 36 && l == Chunks(radix1, f) && extra >= e - log2 && Pow(2, log2) <= v
    ensures Pow(radix1, f) > 0
    ensures v * Pow(2, l * 32 + extra) / Pow(radix1, f) >= Pow(2, e)
  {
    hide Pow;
    var d := DigitsPerLimb(radix1);
    DigitsFit(radix1);
    PowPositive(radix1, f);
    PowAdd(2, log2, l * 32 + extra);
    MulMono(Pow(2, log2), v, Pow(2, l * 32 + extra));
    PowMonotone(2, e + l * 32, log2 + (l * 32 + extra));
    PowAdd(2, e, l * 32);
    PowerFitsLimbs(radix1, f);
    MulMono(Pow(radix1, f), Pow(2, l * 32), Pow(2, e));
    DivMono(Pow(2, e) * Pow(radix1, f), v * Pow(2, l * 32 + extra), Pow(radix1, f));
    DivUnique(Pow(2, e) * Pow(radix1, f), Pow(radix1, f), Pow(2, e), 0);
  }

  lemma PowerFitsLimbs(radix1: nat, f: nat)
    requires 2 <= radix1 <= 36
    ensures Pow(radix1, f) <= Pow(2, Chunks(radix1, f) * 32)
  {
    hide Pow;
    var d, l := DigitsPerLimb(radix1), Chunks(radix1, f);
    DigitsFit(radix1);
    DivIs(f + d - 1, d);
    PowMonotone(radix1, f, d * l);
    PowMul(radix1, d, l);
    PowBaseMonotone(Pow(radix1, d), BASE, l);
    BaseIsPow();
    PowMul(2, 32, l);
  }

  // ---------- rounding to an integer ----------

  /** mul_pow_round: correctly rounded for every sign of `e` and `f`, in every mode. */
  method MulPowRound(a: Bignum, m: nat, e: int, radix1: Limb, rs: nat, f: int, mode: Mode)
    requires OddPart(radix1) && m < TWO64 && a.tab.Length >= 2 + MulPowRoundRoom(radix1, rs, f, e)
    modifies a`len, a.tab
    ensures a.Valid()
    ensures var radix := radix1 * Pow(2, rs); RoundsTo(a.Num(), m * Pow(radix, Up(f)), Pow(radix, Up(-f)), e, mode)
    ensures m > 0 ==> a.Normal()
  {
    hide Pow, RoundsTo, MulPowDone, Chunks;
    a.SetU64(m);
    var eOffset := MulPow(a, radix1, rs, f, true, e);
    ghost var w := a.Num();
    if m > 0 && (f >= 0 || radix1 == 1) {
      StaysPositive(m, w, radix1, f, eOffset + f * rs);
    }
    a.ShrRound(-e + eOffset, mode);
    RoundOnce(a.Num(), w, m, radix1, rs, f, e, eOffset, mode);
  }

  lemma StaysPositive(m: nat, w: nat, radix1: nat, f: int, l: int)
    requires m > 0 && MulPowDone(m, w, radix1, f, l) && (f >= 0 || radix1 == 1)
    ensures w > 0
  {
    hide Pow, Sticky;
    NoDenominator(radix1, f, m * Pow(radix1, Up(f)) * Pow(2, l));
    PowPositive(radix1, Up(f));
    PowPositive(2, l);
    MulAtLeast(m, Pow(radix1, Up(f)));
    MulAtLeast(m * Pow(radix1, Up(f)), Pow(2, l));
  }

  function MulPowRoundRoom(radix1: nat, rs: nat, f: int, e: int): nat
    requires 1 <= radix1 <= 36
  {
    MulPowRoom(radix1, rs, f, true, e) + if f >= 0 || radix1 == 1 then (31 + Up(e + f * rs)) / 32 else 0
  }

  /** Rounding what mul_pow produced is rounding the scaled number itself. */
  lemma RoundOnce(q: nat, w: nat, m: nat, radix1: nat, rs: nat, f: int, e: int, eOffset: int, mode: Mode)
    requires radix1 > 0 && MulPowDone(m, w, radix1, f, eOffset + f * rs)
    requires f >= 0 || radix1 == 1 || eOffset - e >= 2
    requires eOffset - e > 0 ==> IsRound(q, w, Pow(2, eOffset - e), mode)
    requires eOffset - e <= 0 ==> q == w * Pow(2, e - eOffset)
    ensures var radix := radix1 * Pow(2, rs); RoundsTo(q, m * Pow(radix, Up(f)), Pow(radix, Up(-f)), e, mode)
  {
    hide Pow, RoundsTo, IsRound, MulPowDone;
    RoundScaled(q, w, m, radix1, f, eOffset + f * rs, eOffset - e, mode);
    RadixShift(q, m, radix1, rs, f, e, mode);
  }

  lemma RoundScaled(q: nat, w: nat, m: nat, radix1: nat, f: int, l: int, sh: int, mode: Mode)
    requires MulPowDone(m, w, radix1, f, l) && (f >= 0 || radix1 == 1 || sh >= 2)
    requires sh > 0 ==> IsRound(q, w, Pow(2, sh), mode)
    requires sh <= 0 ==> q == w * Pow(2, -sh)
    ensures RoundsTo(q, m * Pow(radix1, Up(f)), Pow(radix1, Up(-f)), l - sh, mode)
  {
    hide Pow, RoundsTo, IsRound, Sticky;
    var x, y := m * Pow(radix1, Up(f)), Pow(radix1, Up(-f));
    assert l >= 0;
    if f >= 0 || radix1 == 1 {
      NoDenominator(radix1, f, x * Pow(2, l));
      if sh <= 0 {
        PowAdd(2, l, -sh);
        Assoc(x, Pow(2, l), Pow(2, -sh));
        PowOne(2);
        ExactRound(q, mode);
        RatioShift(q, x, 1, l - sh, 0, mode);
      } else {
        RatioShift(q, x, 1, l, sh, mode);
      }
    } else {
      StickyRounds(q, x * Pow(2, l), y, sh, mode);
      RatioShift(q, x, y, l, sh, mode);
    }
  }

  lemma NoDenominator(radix1: nat, f: int, n: nat)
    requires f >= 0 || radix1 == 1
    ensures Pow(radix1, Up(-f)) == 1 && Sticky(n, 1) == n
  {
    if radix1 == 1 {
      OnePow(Up(-f));
    }
  }

  lemma ExactRound(q: int, mode: Mode)
    ensures IsRound(q, q, 1, mode)
  {
  }
}
