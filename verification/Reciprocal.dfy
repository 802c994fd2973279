// Division of two limbs by one with a precomputed reciprocal (udiv1norm), and its use on whole arrays.
module Reciprocal {
  import opened Arithmetic
  import opened Limbs

  const BASE2 := 0x1_0000_0000_0000_0000

  /** The high bit is set. */
  predicate Normalised(d: Limb) { d >= 0x8000_0000 }

  /** What udiv1norm expects of its last argument: the reciprocal of `d`, less its leading limb. */
  predicate Inverse(d: Limb, dInv: Limb)
  {
    d > 0 && dInv == (BASE2 - 1) / d - BASE
  }

  function Udiv1normInit(d: Limb): (r: Limb)
    requires Normalised(d)
    ensures Inverse(d, r)
  {
    hide Normalised;
    InitBounds(d);
    var a1, a0 := (0 - d - 1) % BASE, (0 - 1) % BASE;
    (a1 * BASE + a0) / d
  }

  lemma InitBounds(d: Limb)
    requires Normalised(d)
    ensures var x := ((0 - d - 1) % BASE) * BASE + (0 - 1) % BASE;
            d > 0 && x / d == (BASE2 - 1) / d - BASE && 0 <= x / d < BASE
  {
    DivUnique(0 - d - 1, BASE, -1, BASE - 1 - d);
    DivUnique(-1, BASE, -1, BASE - 1);
    var n := BASE2 - 1;
    var v := n / d;
    DivIs(n, d);
    Distrib(d, v, BASE);
    Assoc(d, v - BASE, 1);
    DivUnique(n - d * BASE, d, v - BASE, n % d);
    MulMono(d, BASE - 1, BASE);
    DivNonneg(n - d * BASE, d);
    if v >= 2 * BASE {
      MulMono(2 * BASE, v, d);
      MulMono(0x8000_0000, d, 2 * BASE);
    }
  }

  /** The arithmetic of the method of Granlund and Montgomery: the estimate is the quotient or one less. */
  lemma Estimate(a1: int, a0: int, d: Limb, dInv: Limb, h: int, q: int, rho: int)
    requires Normalised(d) && Inverse(d, dInv) && 0 <= a1 < d && 0 <= a0 < BASE
    requires h == if a0 >= 0x8000_0000 then 1 else 0
    requires dInv * (a1 + h) + (a0 + h * (d - BASE)) == (q - a1) * BASE + rho && 0 <= rho < BASE
    ensures 0 <= a1 * BASE + a0 - q * d < 2 * d
  {
    var t := a1 + h;
    var n := a1 * BASE + a0;
    var v := dInv + BASE;
    DivIs(BASE2 - 1, d);
    var e := (BASE2 - 1) % d + 1;
    assert v * d == BASE2 - e;
    EstimateIdentity(a1, a0, d, dInv, h, q, rho, e);
    var z := e * t + rho * d + (BASE - d) * (a0 - h * (BASE - d));
    assert (n - q * d) * BASE == z;
    EstimateLow(a0, d, h, t, e, rho);
    EstimateHigh(a1, a0, d, h, e, rho);
    Assoc(2, d, BASE);
    MulCancel(n - q * d, 2 * d, BASE);
    MulCancel(0, n - q * d, BASE);
  }

  lemma EstimateLow(a0: int, d: Limb, h: int, t: int, e: int, rho: int)
    requires Normalised(d) && 0 <= a0 < BASE && t >= 0 && 0 <= e && rho >= 0
    requires h == if a0 >= 0x8000_0000 then 1 else 0
    ensures 0 <= e * t + rho * d + (BASE - d) * (a0 - h * (BASE - d))
  {
    MulNonneg(e, t);
    MulNonneg(rho, d);
    MulNonneg(BASE - d, a0 - h * (BASE - d));
  }

  lemma EstimateHigh(a1: int, a0: int, d: Limb, h: int, e: int, rho: int)
    requires Normalised(d) && 0 <= a1 < d && 0 <= a0 < BASE && 1 <= e <= d && 0 <= rho < BASE
    requires h == if a0 >= 0x8000_0000 then 1 else 0
    ensures e * (a1 + h) + rho * d + (BASE - d) * (a0 - h * (BASE - d)) < 2 * d * BASE
  {
    MulMono(e, d, a1 + h);
    MulMono(rho, BASE - 1, d);
    MulMono(a1 + h, d - 1 + h, d);
    Distrib(d, BASE, d);
    Distrib(d, BASE, 1);
    Distrib(d, d, 1);
    if h == 0 {
      MulMono(a0, d, BASE - d);
      Assoc(d, BASE - d, 1);
    } else {
      MulMono(a0 - (BASE - d), d - 1, BASE - d);
      Distrib(BASE - d, d, 1);
    }
  }

  lemma EstimateIdentity(a1: int, a0: int, d: int, dInv: int, h: int, q: int, rho: int, e: int)
    requires (dInv + BASE) * d == BASE2 - e && (h == 0 || h == 1)
    requires dInv * (a1 + h) + (a0 + h * (d - BASE)) == (q - a1) * BASE + rho
    ensures (a1 * BASE + a0 - q * d) * BASE == e * (a1 + h) + rho * d + (BASE - d) * (a0 - h * (BASE - d))
  {
    var t := a1 + h;
    // q * BASE, then q * d * BASE
    assert q * BASE == a1 * BASE + dInv * t + a0 + h * (d - BASE) - rho;
    var qd := q * d;
    assert qd * BASE == (q * BASE) * d by {
      Assoc(q, d, BASE);
      Assoc(q, BASE, d);
    }
    Times(a1, dInv * t, a0, h, d, rho);
    Assoc(dInv, t, d);
    Assoc(dInv, d, t);
    Distrib(d, dInv, BASE);
    Assoc(d, dInv, 1);
    assert dInv * d == BASE2 - e - BASE * d;
    Distrib(t, BASE2 - BASE * d, e);
    Distrib(t, BASE2, BASE * d);
    Assoc(t, BASE, d);
    if h == 1 {
      Square(a0, d);
      Distrib(BASE * d, a1, 1);
    } else {
      Distrib(a0, BASE, d);
    }
  }

  lemma Times(a1: int, x: int, a0: int, h: int, d: int, rho: int)
    requires h == 0 || h == 1
    ensures (a1 * BASE + x + a0 + h * (d - BASE) - rho) * d ==
            a1 * (BASE * d) + x * d + a0 * d + (if h == 1 then d * d - BASE * d else 0) - rho * d
  {
    Distrib(d, a1 * BASE + x + a0, h * (d - BASE) - rho);
    Distrib(d, a1 * BASE + x, a0);
    Distrib(d, a1 * BASE, x);
    Assoc(a1, BASE, d);
    Distrib(d, h * (d - BASE), rho);
    Distrib(d, d, BASE);
  }

  lemma Square(a0: int, d: int)
    ensures (BASE - d) * (a0 - (BASE - d)) == BASE * a0 - BASE2 + 2 * (BASE * d) - d * a0 - d * d
  {
    Distrib(BASE - d, a0, BASE - d);
    Distrib(a0, BASE, d);
    Distrib(BASE - d, BASE, d);
    Distrib(d, BASE, d);
  }

  /** Quotient and remainder of `a1 * BASE + a0` by `d`, in wrapping 32- and 64-bit arithmetic. */
  method Udiv1norm(a1: Limb, a0: Limb, d: Limb, dInv: Limb) returns (q: Limb, r: Limb)
    requires Normalised(d) && Inverse(d, dInv) && a1 < d
    ensures a1 * BASE + a0 == q * d + r && r < d
  {
    hide Inverse;
    var n1m: Limb := if a0 >= 0x8000_0000 then 0xFFFF_FFFF else 0;
    var nAdj: Limb := (a0 + if n1m != 0 then d else 0) % BASE;
    var a := (dInv * ((a1 - n1m) % BASE) + nAdj) % BASE2;
    FirstQuotient(a1, a0, d, dInv);
    q := (a / BASE + a1) % BASE;
    a := (a1 * BASE + a0 - q * d - d) % BASE2;
    var ah: Limb := a / BASE;
    Correction(a1, a0, d, q);
    q := (q + 1 + ah) % BASE;
    r := (a % BASE + if ah != 0 then d else 0) % BASE;
  }

  lemma FirstQuotient(a1: Limb, a0: Limb, d: Limb, dInv: Limb)
    requires Normalised(d) && Inverse(d, dInv) && a1 < d
    ensures var n1m: Limb := if a0 >= 0x8000_0000 then 0xFFFF_FFFF else 0;
            var nAdj: Limb := (a0 + if n1m != 0 then d else 0) % BASE;
            var a := (dInv * ((a1 - n1m) % BASE) + nAdj) % BASE2;
            var q := (a / BASE + a1) % BASE;
            0 <= q && 0 <= a1 * BASE + a0 - q * d < 2 * d
  {
    hide Inverse, Normalised;
    var h := if a0 >= 0x8000_0000 then 1 else 0;
    Masks(a1, a0, d, h);
    NoWrap(dInv, a1 + h, a0 + h * (d - BASE));
    var a := dInv * (a1 + h) + (a0 + h * (d - BASE));
    DivIs(a, BASE);
    DivNonneg(a, BASE);
    Estimate(a1, a0, d, dInv, h, a / BASE + a1, a % BASE);
    QuotientFits(a1, a0, d, a / BASE + a1);
    var n1m: Limb := if a0 >= 0x8000_0000 then 0xFFFF_FFFF else 0;
    var nAdj: Limb := (a0 + if n1m != 0 then d else 0) % BASE;
    assert (dInv * ((a1 - n1m) % BASE) + nAdj) % BASE2 == a;
  }

  lemma Masks(a1: Limb, a0: Limb, d: Limb, h: int)
    requires Normalised(d) && a1 < d && h == if a0 >= 0x8000_0000 then 1 else 0
    ensures var n1m: Limb := if a0 >= 0x8000_0000 then 0xFFFF_FFFF else 0;
            (a1 - n1m) % BASE == a1 + h < BASE && (a0 + if n1m != 0 then d else 0) % BASE == a0 + h * (d - BASE)
    ensures 0 <= a0 + h * (d - BASE) < BASE
  {
  }

  lemma NoWrap(x: Limb, y: Limb, z: Limb)
    ensures 0 <= x * y + z && (x * y + z) % BASE2 == x * y + z
  {
    MulMono(x, BASE - 1, y);
    MulNonneg(x, y);
    DivUnique(x * y + z, BASE2, 0, x * y + z);
  }

  lemma QuotientFits(a1: Limb, a0: Limb, d: Limb, q: int)
    requires a1 < d && 0 <= a1 * BASE + a0 - q * d && 0 <= q
    ensures q % BASE == q
  {
    if q >= BASE {
      MulMono(BASE, q, d);
      MulMono(a1 + 1, d, BASE);
    }
    DivUnique(q, BASE, 0, q);
  }

  /** The last step adds one to the quotient unless the remainder went negative. */
  lemma Correction(a1: Limb, a0: Limb, d: Limb, q: Limb)
    requires Normalised(d) && a1 < d && 0 <= a1 * BASE + a0 - q * d < 2 * d
    ensures var a := (a1 * BASE + a0 - q * d - d) % BASE2;
            var ah := a / BASE;
            var q' := (q + 1 + ah) % BASE;
            var r' := (a % BASE + if ah != 0 then d else 0) % BASE;
            0 <= a && 0 <= ah < BASE && 0 <= q' && 0 <= r' < d && a1 * BASE + a0 == q' * d + r'
  {
    var x := a1 * BASE + a0 - q * d - d;
    Distrib(d, q, 1);
    if x >= 0 {
      DivUnique(x, BASE2, 0, x);
      DivUnique(x, BASE, 0, x);
      if q + 1 >= BASE {
        MulMono(BASE, q + 1, d);
        MulMono(a1 + 1, d, BASE);
      }
      DivUnique(q + 1, BASE, 0, q + 1);
      DivUnique(x + 0, BASE, 0, x);
    } else {
      DivUnique(x, BASE2, -1, x + BASE2);
      DivUnique(x + BASE2, BASE, BASE - 1, x + BASE);
      DivUnique(q + BASE, BASE, 1, q);
      DivUnique(x + BASE + d, BASE, 1, x + d);
    }
  }

  /** Divides the array by `b / 2^shift`, where `b` is that divisor shifted up until its high bit is set. */
  method MpDiv1norm(tab: array<Limb>, n: nat, b: Limb, r0: Limb, bInv: Limb, shift: nat, ghost d: Limb) returns (r: Limb)
    requires n <= tab.Length && shift < LIMB_BITS && r0 < d && b == d * Pow(2, shift) && Normalised(b) && Inverse(b, bInv)
    modifies tab
    ensures Value(old(tab[..n])) + r0 * Pow(BASE, n) == Value(tab[..n]) * d + r && r < d
    ensures SameFrom(old(tab[..]), tab[..], n)
  {
    hide Value, Pow, Inverse, Normalised;
    ghost var total := Value(tab[..n]) + r0 * Pow(BASE, n);
    r := ShiftIn(tab, n, b, r0, shift, d);
    r := DivideNormalised(tab, n, b, r, bInv);
    Unshift(total, Value(tab[..n]), d, shift, r);
    r := r / Pow(2, shift);
  }

  /** The dividend is shifted along with the divisor. */
  method ShiftIn(tab: array<Limb>, n: nat, b: Limb, r0: Limb, shift: nat, ghost d: Limb) returns (r: Limb)
    requires n <= tab.Length && shift < LIMB_BITS && r0 < d && b == d * Pow(2, shift)
    modifies tab
    ensures Value(tab[..n]) + r * Pow(BASE, n) == (Value(old(tab[..n])) + r0 * Pow(BASE, n)) * Pow(2, shift) && r < b
    ensures SameFrom(old(tab[..]), tab[..], n)
  {
    hide Value, Pow;
    r := r0;
    ShiftedRemainder(r0, d, shift);
    if shift != 0 {
      var low := MpShl(tab, n, shift, 0);
      var x: Limb := r * Pow(2, shift) % BASE;
      r := x + low;
      ShiftedFront(old(tab[..n]), tab[..n], r0, low, shift, r);
    } else {
      ShiftZero(r0, d, tab[..n]);
    }
  }

  method DivideNormalised(tab: array<Limb>, n: nat, b: Limb, front: Limb, bInv: Limb) returns (r: Limb)
    requires n <= tab.Length && front < b && Normalised(b) && Inverse(b, bInv)
    modifies tab
    ensures Value(old(tab[..n])) + front * Pow(BASE, n) == Value(tab[..n]) * b + r && r < b
    ensures SameFrom(old(tab[..]), tab[..], n)
  {
    hide Value, Pow, Inverse, Normalised;
    r := front;
    FullStart(old(tab[..]), tab[..], n, b, r);
    var i := n;
    while i > 0
      invariant 0 <= i <= n && tab[..i] == old(tab[..i]) && tab[n..] == old(tab[n..]) && r < b
      invariant Value(old(tab[i..n])) + front * Pow(BASE, n - i) == Value(tab[i..n]) * b + r
    {
      i := i - 1;
      assert tab[i] == old(tab[..i + 1])[i];
      var a0 := tab[i];
      ghost var after, m := tab[i + 1..n], r;
      var q;
      q, r := Udiv1norm(r, a0, b, bInv);
      HighStep(old(tab[i + 1..n]), after, a0, q, b, front, m, r);
      GrowDown(old(tab[..]), i, n);
      tab[i] := q;
      assert tab[i + 1..n] == after;
      GrowDown(tab[..], i, n);
    }
    WholeRange(old(tab[..]), tab[..], n);
  }

  lemma ShiftedRemainder(r0: Limb, d: Limb, shift: nat)
    requires r0 < d && d * Pow(2, shift) < BASE
    ensures Pow(2, shift) > 0 && 0 <= r0 * Pow(2, shift) && r0 * Pow(2, shift) + Pow(2, shift) <= d * Pow(2, shift)
    ensures r0 * Pow(2, shift) % BASE == r0 * Pow(2, shift)
  {
    hide Pow;
    PowPositive(2, shift);
    MulMono(r0 + 1, d, Pow(2, shift));
    Distrib(Pow(2, shift), r0, 1);
    MulNonneg(r0, Pow(2, shift));
    DivUnique(r0 * Pow(2, shift), BASE, 0, r0 * Pow(2, shift));
  }

  lemma ShiftedFront(s: seq<Limb>, t: seq<Limb>, r0: int, low: int, shift: nat, r: int)
    requires |s| == |t| && Value(t) + low * Pow(BASE, |s|) == Value(s) * Pow(2, shift) + 0 && r == r0 * Pow(2, shift) + low
    ensures Value(t) + r * Pow(BASE, |s|) == (Value(s) + r0 * Pow(BASE, |s|)) * Pow(2, shift)
  {
    hide Value, Pow;
    var p, q := Pow(BASE, |s|), Pow(2, shift);
    Distrib(p, r0 * q, low);
    Distrib(q, Value(s), r0 * p);
    Assoc(r0, p, q);
    Assoc(r0, q, p);
    Assoc(p, q, 1);
  }

  lemma ShiftZero(r0: int, d: int, s: seq<Limb>)
    ensures d * Pow(2, 0) == d && (Value(s) + r0 * Pow(BASE, |s|)) * Pow(2, 0) == Value(s) + r0 * Pow(BASE, |s|)
  {
    hide Value;
  }

  lemma Unshift(n: int, q: int, d: Limb, shift: nat, r: Limb)
    requires n * Pow(2, shift) == q * (d * Pow(2, shift)) + r && r < d * Pow(2, shift)
    ensures Pow(2, shift) > 0 && n == q * d + r / Pow(2, shift) && 0 <= r / Pow(2, shift) < d
  {
    hide Pow;
    var p := Pow(2, shift);
    PowPositive(2, shift);
    Assoc(q, d, p);
    Distrib(p, n, q * d);
    Assoc(p, n, 1);
    Assoc(p, q * d, 1);
    Assoc(p, n - q * d, 1);
    DivUnique(r, p, n - q * d, 0);
    MulCancel(n - q * d, d, p);
    MulCancel(0, n - q * d, p);
  }
}
