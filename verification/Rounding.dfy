// Rounding of a quotient of integers, stated without reference to how it is computed.
module Rounding {
  import opened Arithmetic

  /** JS_RNDN, JS_RNDNA and JS_RNDZ. */
  datatype Mode = NearestEven | NearestAway | TowardZero

  /** `q` is `n / d` rounded. */
  predicate IsRound(q: int, n: int, d: int, mode: Mode)
  {
    match mode
    case TowardZero => 0 <= n - q * d < d
    case NearestAway => -d <= 2 * (n - q * d) < d
    case NearestEven => -d <= 2 * (n - q * d) <= d && (2 * (n - q * d) == d || 2 * (n - q * d) == -d ==> q % 2 == 0)
  }

  /** Every quotient has exactly one rounding. */
  lemma RoundUnique(q: int, q': int, n: int, d: int, mode: Mode)
    requires d > 0 && IsRound(q, n, d, mode) && IsRound(q', n, d, mode)
    ensures q == q'
  {
    if q < q' {
      RoundOrder(q, q', n, d, mode);
    } else if q' < q {
      RoundOrder(q', q, n, d, mode);
    }
  }

  lemma RoundOrder(q: int, q': int, n: int, d: int, mode: Mode)
    requires d > 0 && IsRound(q, n, d, mode) && IsRound(q', n, d, mode)
    ensures q >= q'
  {
    Distrib(d, q' - q, 1);
    Distrib(d, q', q);
    if q < q' {
      MulAtLeast(d, q' - q);
      if q + 1 < q' {
        MulMono(2, q' - q, d);
      }
    }
  }

  lemma RoundScale(q: int, n: int, d: int, k: int, mode: Mode)
    requires k > 0 && d > 0
    ensures IsRound(q, n * k, d * k, mode) <==> IsRound(q, n, d, mode)
  {
    var x := n - q * d;
    Assoc(q, d, k);
    Distrib(k, n, q * d);
    assert n * k - q * (d * k) == x * k;
    Assoc(2, x, k);
    MulCancel(2 * x, d, k);
    MulCancel(-d, 2 * x, k);
    MulCancel(d, 2 * x, k);
    MulCancel(0, x, k);
    MulCancel(x, d, k);
    Assoc(-1, d, k);
    ScaledRound(q, n, d, k, x, mode);
  }

  lemma ScaledRound(q: int, n: int, d: int, k: int, x: int, mode: Mode)
    requires k > 0 && x == n - q * d && n * k - q * (d * k) == x * k
    requires (0 <= x * k <==> 0 <= x) && (x * k < d * k <==> x < d) && 2 * (x * k) == 2 * x * k
    requires (2 * x * k < d * k <==> 2 * x < d) && (2 * x * k == d * k <==> 2 * x == d) && (2 * x * k <= d * k <==> 2 * x <= d)
    requires (-(d * k) <= 2 * x * k <==> -d <= 2 * x) && (-(d * k) == 2 * x * k <==> -d == 2 * x)
    ensures IsRound(q, n * k, d * k, mode) <==> IsRound(q, n, d, mode)
  {
  }

  /** The quotient with its lowest bit set when the division is not exact. */
  function Sticky(n: nat, d: nat): nat
    requires d > 0
  {
    DivNonneg(n, d);
    if n % d == 0 then n / d else (n / d) / 2 * 2 + 1
  }

  lemma StickyNear(n: nat, d: nat)
    requires d > 0 && n % d != 0
    ensures var s := Sticky(n, d); s % 2 == 1 && (s - 1) * d < n < (s + 1) * d
  {
    var f := n / d;
    DivIs(n, d);
    Distrib(d, f, 1);
  }

  /** With two more bits below it, the sticky bit never changes the rounding. */
  lemma StickyRounds(q: int, n: nat, d: nat, k: nat, mode: Mode)
    requires d > 0 && k >= 2 && IsRound(q, Sticky(n, d), Pow(2, k), mode)
    ensures Pow(2, k) > 0 && IsRound(q, n, d * Pow(2, k), mode)
  {
    hide Sticky, Pow, IsRound;
    var s, p := Sticky(n, d), Pow(2, k);
    QuarterPow(k);
    PowPositive(2, k);
    if n % d == 0 {
      StickyExact(n, d);
      RoundScale(q, s, p, d, mode);
      Assoc(p, d, 1);
    } else {
      StickyNear(n, d);
      StickyInside(q, s, p, mode);
      Distrib(d, s, 1);
      StickyScaled(q, n, d, s, p, mode);
    }
  }

  lemma StickyExact(n: nat, d: nat)
    requires d > 0 && n % d == 0
    ensures n == Sticky(n, d) * d
  {
    DivIs(n, d);
  }

  lemma QuarterPow(k: nat)
    requires k >= 2
    ensures Pow(2, k) == 4 * Pow(2, k - 2)
  {
  }

  /** How far the middle of an odd number is from the bounds of its rounding. */
  lemma StickyInside(q: int, s: nat, p: nat, mode: Mode)
    requires s % 2 == 1 && p % 4 == 0 && IsRound(q, s, p, mode)
    ensures mode == TowardZero ==> 1 <= s - q * p <= p - 1
    ensures mode != TowardZero ==> 2 - p <= 2 * (s - q * p) <= p - 2
  {
    var c := p / 4;
    assert p == 4 * c;
    var x := q * c;
    assert q * p == 4 * x by {
      Assoc(q, c, 4);
      Assoc(4, c, 1);
    }
  }

  lemma StickyScaled(q: int, n: int, d: int, s: int, p: int, mode: Mode)
    requires d > 0 && s * d - d < n < s * d + d
    requires mode == TowardZero ==> 1 <= s - q * p <= p - 1
    requires mode != TowardZero ==> 2 - p <= 2 * (s - q * p) <= p - 2
    ensures IsRound(q, n, d * p, mode)
  {
    var y := s - q * p;
    Assoc(q, p, d);
    Distrib(d, s, q * p);
    assert q * (d * p) == q * p * d;
    assert s * d - q * (d * p) == y * d;
    if mode == TowardZero {
      MulMono(1, y, d);
      MulMono(y, p - 1, d);
      Distrib(d, p, 1);
    } else {
      Assoc(2, y, d);
      MulMono(2 - p, 2 * y, d);
      MulMono(2 * y, p - 2, d);
      Distrib(d, p, 2);
      Distrib(d, 2, p);
    }
  }

  /** Rounding half of a step from the bits of the number: the lowest bit kept, the first dropped, and the rest. */
  function Increment(v: nat, p: nat, mode: Mode): nat
    requires p > 0
  {
    // p is half of the divisor
    if mode == TowardZero || (v / p) % 2 == 0 then 0
    else if mode == NearestAway || v % p != 0 then 1
    else (v / (2 * p)) % 2
  }

  lemma IncrementRounds(v: nat, p: nat, mode: Mode)
    requires p > 0
    ensures IsRound(v / (2 * p) + Increment(v, p, mode), v, 2 * p, mode)
  {
    var h, low := v / p, v % p;
    DivIs(v, p);
    DivNonneg(v, p);
    DivDiv(v, p, 2);
    assert p * 2 == 2 * p;
    var q := h / 2;
    assert q == v / (2 * p);
    var b := h % 2;
    assert h == 2 * q + b;
    Distrib(p, 2 * q, b);
    Assoc(p, 2, q);
    assert v == q * (2 * p) + b * p + low by {
      Assoc(q, 2, p);
      Assoc(q * 2, p, 1);
    }
    Distrib(2 * p, q, 1);
    if b == 0 {
      assert v - q * (2 * p) == low;
    } else {
      assert v - q * (2 * p) == p + low;
    }
    IncrementCases(v, p, q, b, low, mode);
  }

  lemma IncrementCases(v: nat, p: nat, q: nat, b: int, low: int, mode: Mode)
    requires p > 0 && v - q * (2 * p) == (if b == 0 then low else p + low) && 0 <= low < p && (b == 0 || b == 1)
    ensures var i := if mode == TowardZero || b == 0 then 0 else if mode == NearestAway || low != 0 then 1 else q % 2;
            IsRound(q + i, v, 2 * p, mode)
  {
    Distrib(2 * p, q, 1);
    assert (q + 1) * (2 * p) == q * (2 * p) + 2 * p;
  }
}
