// How large the numbers are that the free format prints with an exponent.
module NumberLimits {
  import opened Arithmetic
  import opened Limbs
  import opened Rounding
  import opened Logarithms
  import opened Powers
  import opened PowerScaling
  import opened Binary64
  import opened DoubleBits
  import opened NumberReading
  import opened NumberRounding
  import opened FreeFormatFacts
  import opened FreeFormatSearch
  import opened FreeFormatLoop

  // ---------- a double and a number next to it ----------

  /** A binade, in units of the last place of 53 bits. */
  lemma BinadeUnits(x: nat, y: nat, b: int)
    requires y > 0
    ensures InBinade(x, y, b) <==> TWO52 * Scale(y, b - 53) <= Scale(x, 53 - b) < TWO53 * Scale(y, b - 53)
  {
    hide Pow;
    var n, d := Scale(x, 53 - b), Scale(y, b - 53);
    Twos();
    PowTimes(y, Up(b - 53), 52, Up(b - 53) + 52);
    Assoc(d, TWO52, 1);
    LeadingTwo(n, d * TWO52);
    RatioShift(1, x, y, Up(53 - b), Up(b - 53) + 52, TowardZero);
  }

  lemma LeadingTwo(n: nat, d: nat)
    ensures IsRound(1, n, d, TowardZero) <==> d <= n < 2 * d
  {
  }

  /** Numbers of a lower binade are smaller. */
  lemma LowerBinade(x: nat, y: nat, b: int, c: int)
    requires y > 0 && InBinade(x, y, b) && b <= c
    ensures Scale(x, 53 - c) < TWO53 * Scale(y, c - 53)
  {
    hide Pow, InBinade;
    BinadeUnits(x, y, b);
    var n, d, n', d' := Scale(x, 53 - b), Scale(y, b - 53), Scale(x, 53 - c), Scale(y, c - 53);
    ScalePositive(y, b - 53);
    ScalePositive(y, c - 53);
    PowAdd(2, Up(53 - b), Up(c - 53));
    PowAdd(2, Up(53 - c), Up(b - 53));
    PowAdd(2, c - b, Up(53 - c) + Up(b - 53));
    PowPositive(2, c - b);
    Interchange(x, Pow(2, Up(53 - b)), y, Pow(2, Up(c - 53)));
    Interchange(x, Pow(2, Up(53 - c)), y, Pow(2, Up(b - 53)));
    SmallerRatio(n, d, n', d', Pow(2, c - b), x * y, Pow(2, Up(53 - c) + Up(b - 53)));
  }

  lemma SmallerRatio(n: nat, d: nat, n': nat, d': nat, k: nat, z: nat, w: nat)
    requires d > 0 && d' > 0 && k > 0 && n * d' == z * (k * w) && n' * d == z * w && n < TWO53 * d
    ensures n' < TWO53 * d'
  {
    Assoc(z, k, w);
    Assoc(k, z, w);
    MulAtLeast(z * w, k);
    MulLess(d', n, TWO53 * d);
    Assoc(TWO53, d, d');
    Assoc(TWO53, d', d);
    MulCancel(n', TWO53 * d', d);
  }

  /** Not a tiny number. */
  predicate Ordinary(x: nat, y: nat) { y <= x * Pow(2, 1021) }

  lemma OrdinaryBinade(x: nat, y: nat, b: int)
    requires y > 0 && Ordinary(x, y) && InBinade(x, y, b)
    ensures b >= -1021
  {
    hide Pow, InBinade;
    BinadeBounds(x, y, b);
    if b < -1021 {
      ScaleZero(y, b);
      PowMonotone(2, 1021, -b);
      MulMono(Pow(2, 1021), Pow(2, -b), x);
    }
  }

  /** When a double lies below the number that it is nearest to, the two are in the same binade. */
  lemma RoundedBelow(m: nat, e: int, x: nat, y: nat)
    requires y > 0 && Ordinary(x, y) && TWO52 <= m < TWO53 && IsDouble(m, e, x, y, NearestEven)
    requires m * Scale(y, e - 53) < Scale(x, 53 - e)
    ensures e >= -1021 && IsRound(m, Scale(x, 53 - e), Scale(y, e - 53), NearestEven) && Scale(x, 53 - e) < TWO53 * Scale(y, e - 53)
  {
    hide Pow, InBinade, RoundsTo, Represents, Ordinary, IsRound, Scale;
    var q: nat, b :| RoundsInBinade(q, b, x, y, NearestEven) && Represents(m, e, q, b);
    OrdinaryBinade(x, y, b);
    BinadeDigits(q, x, y, b);
    if b > e {
      NotDoubled(m, e, q, b);
    }
    ScalePositive(y, e - 53);
    MulMono(TWO52, m, Scale(y, e - 53));
    if b < e {
      LowerBelow(x, y, b, e);
    }
    LowerBinade(x, y, b, e);
    SameUnits(m, q, e);
    RoundsUnits(q, x, y, e);
  }

  lemma LowerBelow(x: nat, y: nat, b: int, e: int)
    requires y > 0 && InBinade(x, y, b) && b < e
    ensures Scale(x, 53 - e) < TWO52 * Scale(y, e - 53)
  {
    hide Pow, InBinade;
    LowerBinade(x, y, b, e - 1);
    var c := e - 1;
    if c >= 53 {
      ScaleTwice(y, c - 53);
      ScaleZero(x, 53 - c);
      ScaleZero(x, 53 - e);
    } else {
      ScaleTwice(x, 53 - e);
      ScaleZero(y, c - 53);
      ScaleZero(y, e - 53);
    }
  }

  lemma BinadeDigits(q: nat, x: nat, y: nat, b: int)
    requires y > 0 && b >= -1021 && RoundsInBinade(q, b, x, y, NearestEven)
    ensures q >= TWO52
  {
    hide Pow, InBinade, IsRound, Scale;
    BinadeUnits(x, y, b);
    ScalePositive(y, b - 53);
    RoundsUnits(q, x, y, b);
    RoundBounds(q, Scale(x, 53 - b), Scale(y, b - 53), TWO52, 0, NearestEven);
  }

  lemma RoundsUnits(q: nat, x: nat, y: nat, b: int)
    ensures RoundsTo(q, x, y, 53 - b, NearestEven) <==> IsRound(q, Scale(x, 53 - b), Scale(y, b - 53), NearestEven)
  {
    hide Pow, IsRound, Scale;
    assert -(53 - b) == b - 53;
  }

  lemma SameUnits(m: nat, q: nat, e: int)
    requires m > 0 && e >= -1021 && Represents(m, e, q, e)
    ensures m == q
  {
    ScaleZero(m, 0);
    ScaleZero(q, 0);
  }

  /** In that binade rounding is to a multiple of the unit in the last place. */
  lemma RoundedWithin(m: nat, e: int, x: nat, y: nat, n: nat, d: nat)
    requires y > 0 && TWO52 <= m < TWO53 && e >= -1021 && n == Scale(x, 53 - e) && d == Scale(y, e - 53)
    requires TWO52 * d <= n < TWO53 * d && IsRound(m, n, d, NearestEven)
    ensures IsDouble(m, e, x, y, NearestEven)
  {
    hide Pow, InBinade, RoundsTo, IsRound, Scale;
    BinadeUnits(x, y, e);
    RoundsUnits(m, x, y, e);
    PowOne(2);
    SameAs(m, e, m, 0);
    DoubleFrom(m, e, x, y, m, e);
  }

  /** What lies between a double and a number above it that it is nearest to has the same nearest double. */
  lemma BetweenRounds(m: nat, e: int, x: nat, y: nat, x': nat, y': nat)
    requires y > 0 && y' > 0 && TWO52 <= m < TWO53 && Ordinary(x, y) && x * y' <= x' * y && IsDouble(m, e, x', y', NearestEven)
    requires m * Scale(y, e - 53) < Scale(x, 53 - e)
    ensures IsDouble(m, e, x, y, NearestEven)
  {
    hide Pow, IsDouble, IsRound, Ordinary, Scale;
    var n, d, n', d' := Scale(x, 53 - e), Scale(y, e - 53), Scale(x', 53 - e), Scale(y', e - 53);
    ScalePositive(y, e - 53);
    ScalePositive(y', e - 53);
    OrdinaryAbove(x, y, x', y');
    ScaledOrder(x, y, x', y', e);
    BelowBoth(m, n, d, n', d');
    RoundedBelow(m, e, x', y');
    RoundBetween(m, n, d, n', d');
    RoundedWithin(m, e, x, y, n, d);
  }

  lemma OrdinaryAbove(x: nat, y: nat, x': nat, y': nat)
    requires y > 0 && x * y' <= x' * y && Ordinary(x, y)
    ensures Ordinary(x', y')
  {
    hide Pow;
    var p := Pow(2, 1021);
    PowPositive(2, 1021);
    MulMono(y, x * p, y');
    Assoc(x, p, y');
    Assoc(x, y', p);
    MulMono(x * y', x' * y, p);
    Assoc(x', y, p);
    Assoc(x', p, y);
    Assoc(y', y, 1);
    MulCancel(y', x' * p, y);
  }

  lemma ScaledOrder(x: nat, y: nat, x': nat, y': nat, e: int)
    requires x * y' <= x' * y
    ensures Scale(x, 53 - e) * Scale(y', e - 53) <= Scale(x', 53 - e) * Scale(y, e - 53)
  {
    hide Pow;
    var a, b := Pow(2, Up(53 - e)), Pow(2, Up(e - 53));
    Interchange(x, a, y', b);
    Interchange(x', a, y, b);
    MulMono(x * y', x' * y, a * b);
  }

  lemma BelowBoth(m: nat, n: nat, d: nat, n': nat, d': nat)
    requires d > 0 && d' > 0 && m * d < n && n * d' <= n' * d
    ensures m * d' < n'
  {
    MulLess(d', m * d, n);
    Assoc(m, d, d');
    Assoc(m, d', d);
    MulCancel(m * d', n', d);
  }

  lemma RoundBetween(m: nat, n: nat, d: nat, n': nat, d': nat)
    requires d > 0 && d' > 0 && m >= TWO52 && m * d < n && n * d' <= n' * d && IsRound(m, n', d', NearestEven) && n' < TWO53 * d'
    ensures TWO52 * d <= n < TWO53 * d && IsRound(m, n, d, NearestEven)
  {
    MulMono(TWO52, m, d);
    MulLess(d, n', TWO53 * d');
    Assoc(TWO53, d', d);
    Assoc(TWO53, d, d');
    MulCancel(n, TWO53 * d, d');
    Closer(n - m * d, d, n' - m * d', d', m, n, n');
  }

  lemma Closer(w: int, d: nat, w': int, d': nat, m: nat, n: nat, n': nat)
    requires d > 0 && d' > 0 && w == n - m * d && w' == n' - m * d' && w > 0 && n * d' <= n' * d && 2 * w' <= d'
    ensures 2 * w <= d && (2 * w == d ==> 2 * w' == d')
  {
    Excess(w, d, n, m, d');
    Excess(w', d', n', m, d);
    Assoc(m, d', d);
    Assoc(m, d, d');
    HalfWay(w, d, w', d');
  }

  lemma Excess(w: int, d: nat, n: nat, m: nat, c: nat)
    requires w == n - m * d
    ensures w * c == n * c - m * d * c
  {
    Distrib(c, n, m * d);
  }

  lemma HalfWay(w: int, d: nat, w': int, d': nat)
    requires d > 0 && d' > 0 && w * d' <= w' * d && 2 * w' <= d'
    ensures 2 * w <= d && (2 * w == d ==> 2 * w' == d')
  {
    MulMono(2 * w', d', d);
    Assoc(2, w', d);
    Assoc(2, w, d');
    Assoc(d, d', 1);
    MulCancel(2 * w, d, d');
    MulCancel(d', 2 * w', d);
  }

  // ---------- doubles and powers of the radix ----------

  /** m * 2^(e - 53) >= b^k */
  predicate AtLeastPower(m: nat, e: int, b: nat, k: int)
  {
    m * Over(b, -k, e - 53) >= Under(b, -k, e - 53)
  }

  /** The double is at least b^k, or the one nearest to it. */
  ghost predicate NotBelow(m: nat, e: int, b: nat, k: int)
  {
    AtLeastPower(m, e, b, k) || IsDouble(m, e, Pow(b, Up(k)), Pow(b, Up(-k)), NearestEven)
  }

  lemma PowerUnits(b: nat, k: int, e: int)
    requires b > 0
    ensures Scale(Pow(b, Up(k)), 53 - e) == Under(b, -k, e - 53) && Scale(Pow(b, Up(-k)), e - 53) == Over(b, -k, e - 53)
    ensures Over(b, -k, e - 53) > 0 && Under(b, -k, e - 53) > 0 && Pow(b, Up(-k)) > 0
  {
    hide Pow;
    OverPositive(b, -k, e - 53);
    PowPositive(b, Up(-k));
  }

  lemma RaisedRatio(b: nat, i: int, j: int, t: nat)
    requires b > 0
    ensures Over(b, i + t, j) * Under(b, i, j) == Pow(b, t) * (Under(b, i + t, j) * Over(b, i, j))
  {
    hide Pow;
    RatioTimes(b, i, j, t, 0);
    WholeRatio(b, t);
    hide Over;
    Assoc(Under(b, i + t, j), Over(b, i, j), Pow(b, t));
    assert i + t == i + t && j + 0 == j;
  }

  lemma WholeRatio(b: nat, t: nat)
    ensures Over(b, t, 0) == Pow(b, t) && Under(b, t, 0) == 1
  {
    hide Pow;
    PowOne(b);
    PowOne(2);
  }

  /** Both sides of a comparison multiplied by `h`. */
  lemma Proportion(m: nat, n: nat, d: nat, n0: nat, d0: nat, h: nat)
    requires n * d0 == h * (d * n0) && d > 0 && d0 > 0 && h > 0
    ensures m * n >= h * d <==> m * n0 >= d0
  {
    MulAtLeast(d, h);
    Assoc(m, n, d0);
    Assoc(h, d, n0);
    Assoc(m, h * d, n0);
    Assoc(h * d, m, n0);
    MulCancel(h * d, m * n, d0);
    Assoc(h, d, d0);
    if m * n0 >= d0 {
      MulMono(d0, m * n0, h * d);
    } else {
      MulLess(h * d, m * n0, d0);
    }
  }

  /** From `b^k` on, digits for an exponent up to `k` overflow. */
  lemma LargeTry(f: nat, m: nat, e: int, b: nat, p: nat, ee: int, k: int)
    requires b > 1 && AtLeastPower(m, e, b, k) && ee <= k && Tried(f, m, e, b, p, ee)
    ensures f >= Pow(b, p)
  {
    hide Pow, Over, Tried, IsRound;
    var t, j := p - ee + k, e - 53;
    TriedRatio(f, m, e, b, p, ee);
    RaisedRatio(b, -k, j, t);
    OverPositive(b, -k, j);
    PowPositive(b, t);
    assert -k + t == p - ee;
    Proportion(m, Over(b, p - ee, j), Under(b, p - ee, j), Over(b, -k, j), Under(b, -k, j), Pow(b, t));
    RoundBounds(f, m * Over(b, p - ee, j), Under(b, p - ee, j), Pow(b, t), 0, NearestEven);
    PowMonotone(b, p, t);
  }

  // ---------- a double just below a power of the radix ----------

  /** In units of the last place of `m`, the power is `h * d / n`; it rounds to `m`, which lies below it. */
  predicate JustBelow(m: nat, n: nat, d: nat, h: nat)
  {
    0 < n && 0 < d && 0 < h && m * n < h * d && IsRound(m, h * d, n, NearestEven) && (TWO52 + 1) * n <= h * d < TWO53 * n
  }

  lemma PowerJustBelow(m: nat, n: nat, d: nat, n0: nat, d0: nat, h: nat)
    requires n * d0 == h * (d * n0) && n > 0 && d > 0 && n0 > 0 && d0 > 0 && h > 0
    requires m * n0 < d0 && IsRound(m, d0, n0, NearestEven) && (TWO52 + 1) * n0 <= d0 < TWO53 * n0
    ensures JustBelow(m, n, d, h)
  {
    hide IsRound;
    Proportion(m, n, d, n0, d0, h);
    RoundProportion(m, n, d, n0, d0, h);
    Proportion(TWO52 + 1, n, d, n0, d0, h);
    Proportion(TWO53, n, d, n0, d0, h);
    LessProportion(TWO52 + 1, n, d, n0, d0, h);
  }

  lemma LessProportion(c: nat, n: nat, d: nat, n0: nat, d0: nat, h: nat)
    requires n * d0 == h * (d * n0) && d0 > 0 && c * n0 <= d0
    ensures c * n <= h * d
  {
    MulAtLeastZero(h, d);
    Assoc(c, n, d0);
    Assoc(h, d, n0);
    Assoc(c, h * d, n0);
    Assoc(h * d, c, n0);
    MulMono(c * n0, d0, h * d);
    MulCancel(c * n, h * d, d0);
  }

  lemma MulAtLeastZero(a: nat, b: nat)
    ensures a * b >= 0
  {
    MulNonneg(a, b);
  }

  lemma RoundProportion(m: nat, n: nat, d: nat, n0: nat, d0: nat, h: nat)
    requires n * d0 == h * (d * n0) && n > 0 && n0 > 0 && IsRound(m, d0, n0, NearestEven)
    ensures IsRound(m, h * d, n, NearestEven)
  {
    hide IsRound;
    RoundScale(m, d0, n0, n, NearestEven);
    Assoc(h, d, n0);
    RoundScale(m, h * d, n, n0, NearestEven);
    Assoc(n0, n, 1);
  }

  /** Fewer digits find the power itself or a number no farther from `m`: it rounds to `m` as well. */
  lemma NoFarther(m: nat, n: nat, d: nat, h: nat, f: nat)
    requires JustBelow(m, n, d, h) && IsRound(f, m * n, d, NearestEven)
    ensures IsRound(m, f * d, n, NearestEven) && TWO52 * n <= f * d < TWO53 * n
  {
    RoundBounds(f, m * n, d, 0, h, NearestEven);
    MulMono(f, h, d);
    if f < h {
      MulMono(f + 1, h, d);
      Distrib(d, f, 1);
    }
    Distances(m * n, h * d, f * d, d, f == h);
    Distrib(n, TWO52, 1);
    NearTie(m, n, h * d, f * d);
  }

  lemma Distances(w: int, a: int, g: int, d: int, same: bool)
    requires w < a && (same ==> g == a) && (!same ==> g + d <= a) && -d <= 2 * (w - g) <= d
    ensures w - g <= a - w && g <= a
  {
  }

  lemma NearTie(m: nat, n: nat, a: int, g: int)
    requires n > 0 && m * n < a && IsRound(m, a, n, NearestEven) && m * n - g <= a - m * n && g <= a && (TWO52 + 1) * n <= a < TWO53 * n
    ensures IsRound(m, g, n, NearestEven) && TWO52 * n <= g < TWO53 * n
  {
  }

  /** A power of the radix is clear of the power of two below it. */
  predicate Clear(b: nat, k: int, e: int)
  {
    TWO52 * Over(b, -k, e - 53) < Under(b, -k, e - 53) < TWO53 * Over(b, -k, e - 53) ==>
      (TWO52 + 1) * Over(b, -k, e - 53) <= Under(b, -k, e - 53)
  }

  /** What the nearest double below a power is to that power. */
  lemma NearestBelow(m: nat, e: int, b: nat, k: int, q: int, ee: int)
    requires b > 1 && TWO52 <= m < TWO53 && Ordinary(Pow(b, Up(k)), Pow(b, Up(-k))) && Clear(b, k, e)
    requires NotBelow(m, e, b, k) && !AtLeastPower(m, e, b, k) && q - ee + k >= 0
    ensures e >= -1021 && JustBelow(m, Over(b, q - ee, e - 53), Under(b, q - ee, e - 53), Pow(b, q - ee + k))
  {
    hide Pow, Over, Ordinary, IsDouble, IsRound, Scale, JustBelow;
    var t, j := q - ee + k, e - 53;
    PowerUnits(b, k, e);
    RoundedBelow(m, e, Pow(b, Up(k)), Pow(b, Up(-k)));
    MulMono(TWO52, m, Over(b, -k, j));
    RaisedRatio(b, -k, j, t);
    assert -k + t == q - ee;
    OverPositive(b, q - ee, j);
    PowPositive(b, t);
    PowerJustBelow(m, Over(b, q - ee, j), Under(b, q - ee, j), Over(b, -k, j), Under(b, -k, j), Pow(b, t));
  }

  /** Any count of digits works for the double next below a power of the radix. */
  lemma FewerWork(m: nat, e: int, b: nat, k: int, q: nat, e0: int)
    requires b > 1 && TWO52 <= m < TWO53 && Ordinary(Pow(b, Up(k)), Pow(b, Up(-k))) && Clear(b, k, e) && Bracket(b, e0, e)
    requires NotBelow(m, e, b, k) && !AtLeastPower(m, e, b, k) && q >= 1
    ensures Works(q, m, e, b, e0)
  {
    hide Pow, Over, Ordinary, IsDouble, IsRound, Scale, JustBelow, NotBelow, AtLeastPower, Clear, Bracket, Candidate, ConvertsBack;
    ExponentBelow(m, e, b, k, e0);
    var f, ee := CandidateExists(m, e, b, q, e0);
    TriedCandidate(f, m, e, b, q, e0, ee);
    NearestBelow(m, e, b, k, q, ee);
    var n, d := Over(b, q - ee, e - 53), Under(b, q - ee, e - 53);
    TriedRatio(f, m, e, b, q, ee);
    NoFarther(m, n, d, Pow(b, q - ee + k), f);
    FewerConverts(m, e, b, q, f, ee);
  }

  lemma FewerConverts(m: nat, e: int, b: nat, q: nat, f: nat, ee: int)
    requires b > 0 && TWO52 <= m < TWO53 && e >= -1021
    requires var n, d := Over(b, q - ee, e - 53), Under(b, q - ee, e - 53);
             IsRound(m, f * d, n, NearestEven) && TWO52 * n <= f * d < TWO53 * n
    ensures ConvertsBack(f, q, ee, m, e, b)
  {
    hide Pow, Over, IsRound, Scale, IsDouble;
    PowPositive(b, Up(q - ee));
    PrintedRatio(f, b, q, ee, e);
    RoundedWithin(m, e, f * Pow(b, Up(ee - q)), Pow(b, Up(q - ee)), f * Under(b, q - ee, e - 53), Over(b, q - ee, e - 53));
  }

  lemma TriedCandidate(f: nat, m: nat, e: int, b: nat, q: nat, e0: int, ee: int)
    requires Candidate(f, m, e, b, q, e0, ee)
    ensures Tried(f, m, e, b, q, ee) && e0 <= ee <= e0 + 1 && f < Pow(b, q)
  {
  }

  /** The exponent for a double below b^k. */
  lemma ExponentBelow(m: nat, e: int, b: nat, k: int, e0: int)
    requires b > 1 && TWO52 <= m && Bracket(b, e0, e) && !AtLeastPower(m, e, b, k)
    ensures e0 <= k
  {
    hide Pow, Over, Bracket;
    if e0 > k {
      var n0, d0 := Over(b, -k, e - 53), Under(b, -k, e - 53);
      BracketLow(b, e0, e, e0 - k);
      assert e0 - k - e0 == -k;
      PowPositive(b, e0 - k - 1);
      MulAtLeast(d0, Pow(b, e0 - k - 1));
      Assoc(d0, Pow(b, e0 - k - 1), 1);
      MulMono(TWO52, m, n0);
    }
  }

  lemma NearestExists(n: nat, d: nat) returns (q: nat)
    requires d > 0
    ensures IsRound(q, n, d, NearestEven)
  {
    DivIs(n, d);
    DivNonneg(n, d);
    q := n / d;
    Distrib(d, q, 1);
    if 2 * (n % d) > d || (2 * (n % d) == d && q % 2 == 1) {
      q := q + 1;
    }
  }

  /** There are digits for every count. */
  lemma CandidateExists(m: nat, e: int, b: nat, q: nat, e0: int) returns (f: nat, ee: int)
    requires b > 1 && q >= 1 && TWO52 <= m < TWO53 && Bracket(b, e0, e)
    ensures Candidate(f, m, e, b, q, e0, ee)
  {
    hide Pow, Over, Bracket, Tried, IsRound;
    ee := e0;
    f := TriedExists(m, e, b, q, e0);
    if f >= Pow(b, q) {
      var f0 := f;
      f := TriedExists(m, e, b, q, e0 + 1);
      TryNext(f0, f, m, e, b, q, e0);
      ee := e0 + 1;
    }
  }

  lemma TriedExists(m: nat, e: int, b: nat, q: nat, ee: int) returns (f: nat)
    requires b > 1
    ensures Tried(f, m, e, b, q, ee)
  {
    hide Pow, Over, Tried, IsRound;
    OverPositive(b, q - ee, e - 53);
    MulNonneg(m, Over(b, q - ee, e - 53));
    f := NearestExists(m * Over(b, q - ee, e - 53), Under(b, q - ee, e - 53));
    RatioTried(f, m, e, b, q, ee);
  }

  /** One digit is not enough for the double next below a power, unless it is rounded up to the power. */
  lemma OneDigitTry(m: nat, e: int, b: nat, k: int, f: nat, ee: int)
    requires 1 < b <= 36 && TWO52 <= m < TWO53 && Ordinary(Pow(b, Up(k)), Pow(b, Up(-k))) && Clear(b, k, e)
    requires NotBelow(m, e, b, k) && !AtLeastPower(m, e, b, k) && Tried(f, m, e, b, 1, ee) && f < b
    ensures ee > k
  {
    hide Pow, Over, Ordinary, IsDouble, IsRound, Scale, JustBelow, NotBelow, AtLeastPower, Clear, Tried;
    if ee <= k {
      PowOne(b);
      OneBelow(m, e, b, k);
      if ee <= k - 1 {
        LargeTry(f, m, e, b, 1, ee, k - 1);
      } else {
        NearestBelow(m, e, b, k, 1, ee);
        TriedRatio(f, m, e, b, 1, ee);
        NotOneDigit(m, Over(b, 1 - ee, e - 53), Under(b, 1 - ee, e - 53), b, f);
      }
    }
  }

  lemma NotOneDigit(m: nat, n: nat, d: nat, b: nat, f: nat)
    requires b <= 36 && m >= TWO52 && JustBelow(m, n, d, b) && IsRound(f, m * n, d, NearestEven)
    ensures f >= b
  {
    if f < b {
      MulMono(f + 1, b, d);
      Distrib(d, f, 1);
      MulMono(b, 36, d);
    }
  }

  lemma OneBelow(m: nat, e: int, b: nat, k: int)
    requires b > 1 && TWO52 <= m < TWO53 && Ordinary(Pow(b, Up(k)), Pow(b, Up(-k))) && Clear(b, k, e)
    requires NotBelow(m, e, b, k) && !AtLeastPower(m, e, b, k)
    ensures AtLeastPower(m, e, b, k - 1)
  {
    hide Pow, Over, Ordinary, IsDouble, IsRound, Scale, JustBelow, NotBelow, Clear;
    NearestBelow(m, e, b, k, 1, k);
    var n, d := Over(b, 1 - k, e - 53), Under(b, 1 - k, e - 53);
    PowOne(b);
    HalfPower(m, n, d, b);
    assert -(k - 1) == 1 - k;
  }

  lemma HalfPower(m: nat, n: nat, d: nat, b: nat)
    requires b > 1 && m >= TWO52 && JustBelow(m, n, d, b)
    ensures m * n >= d
  {
    MulMono(2, b, d);
    MulMono(TWO52, m, n);
  }

  // ---------- the limits of the free format ----------

  /** The exponent of the digits that the search finds is above `k` exactly from the double nearest to b^k on. */
  lemma FoundAbove(m: nat, e: int, b: nat, k: int, mant: nat, p: nat, ee: int, e0: int, pMax: nat)
    requires 1 < b <= 36 && TWO52 <= m < TWO53 && Ordinary(Pow(b, Up(k)), Pow(b, Up(-k))) && Clear(b, k, e) && Bracket(b, e0, e)
    requires SearchResult(mant, p, ee, m, e, b, e0, pMax) && 1 <= p && Pow(b, p - 1) <= mant < Pow(b, p)
    ensures ee > k <==> NotBelow(m, e, b, k)
  {
    hide Pow, Over, Ordinary, IsDouble, IsRound, Scale, Clear, Bracket, Candidate, ConvertsBack, AllWork, AtLeastPower, Works;
    TriedCandidate(mant, m, e, b, p, e0, ee);
    if ee > k {
      if !AtLeastPower(m, e, b, k) {
        PrintedAbove(m, e, b, k, mant, p, ee);
      }
    } else if AtLeastPower(m, e, b, k) {
      LargeTry(mant, m, e, b, p, ee, k);
    } else if NotBelow(m, e, b, k) {
      if p == 1 {
        PowOne(b);
        OneDigitTry(m, e, b, k, mant, ee);
      } else {
        FewerWork(m, e, b, k, p - 1, e0);
      }
    }
  }

  lemma PrintedAbove(m: nat, e: int, b: nat, k: int, mant: nat, p: nat, ee: int)
    requires b > 1 && TWO52 <= m < TWO53 && Ordinary(Pow(b, Up(k)), Pow(b, Up(-k))) && ee > k && p >= 1 && mant >= Pow(b, p - 1)
    requires ConvertsBack(mant, p, ee, m, e, b) && !AtLeastPower(m, e, b, k)
    ensures NotBelow(m, e, b, k)
  {
    hide Pow, Over, Ordinary, IsDouble, Scale;
    PowerUnits(b, k, e);
    PowPositive(b, Up(p - ee));
    PowerOrder(b, k, mant, p, ee);
    BetweenRounds(m, e, Pow(b, Up(k)), Pow(b, Up(-k)), mant * Pow(b, Up(ee - p)), Pow(b, Up(p - ee)));
  }

  lemma PowerOrder(b: nat, k: int, mant: nat, p: nat, ee: int)
    requires b > 1 && ee > k && p >= 1 && mant >= Pow(b, p - 1)
    ensures Pow(b, Up(k)) * Pow(b, Up(p - ee)) <= mant * Pow(b, Up(ee - p)) * Pow(b, Up(-k))
  {
    hide Pow;
    var r := Up(ee - p) + Up(-k);
    PowAdd(b, Up(k), Up(p - ee));
    PowAdd(b, Up(ee - p), Up(-k));
    PowAdd(b, p - 1, r);
    PowMonotone(b, Up(k) + Up(p - ee), p - 1 + r);
    PowPositive(b, r);
    MulMono(Pow(b, p - 1), mant, Pow(b, r));
    Assoc(mant, Pow(b, Up(ee - p)), Pow(b, Up(-k)));
  }

  /** From radix^UpperLimit on, and below radix^LowerLimit, an exponent is shown. */
  function UpperLimit(radix: nat): nat
    requires 2 <= radix <= 36
  {
    MaxDigits(radix) + 4
  }

  const LOWER_LIMIT := -6

  /** Powers of two are not strictly inside a binade. */
  lemma NotInside(z1: nat, z2: nat)
    ensures !(TWO52 * Pow(2, z2) < Pow(2, z1) < TWO53 * Pow(2, z2))
  {
    hide Pow;
    Twos();
    PowAdd(2, 52, z2);
    PowAdd(2, 53, z2);
    if z1 <= 52 + z2 {
      PowMonotone(2, z1, 52 + z2);
    } else {
      PowMonotone(2, 53 + z2, z1);
    }
  }

  lemma ClearBinary(b: nat, c: nat, k: int, e: int)
    requires b == Pow(2, c)
    ensures Clear(b, k, e)
  {
    hide Pow;
    MulNonneg(c, Up(k));
    MulNonneg(c, Up(-k));
    PowMul(2, c, Up(k));
    PowMul(2, c, Up(-k));
    PowAdd(2, c * Up(k), Up(53 - e));
    PowAdd(2, c * Up(-k), Up(e - 53));
    NotInside(c * Up(k) + Up(53 - e), c * Up(-k) + Up(e - 53));
  }

  lemma ClearOne(b: nat, e: int)
    ensures Clear(b, 0, e)
  {
    hide Pow;
    PowOne(b);
    NotInside(Up(53 - e), Up(e - 53));
  }

  lemma ClearAt(b: nat, k: int, e: int, binade: int)
    requires b > 0 && (TWO52 + 1) * Scale(Pow(b, Up(-k)), binade - 53) <= Scale(Pow(b, Up(k)), 53 - binade)
    requires Scale(Pow(b, Up(k)), 53 - binade) < TWO53 * Scale(Pow(b, Up(-k)), binade - 53)
    ensures Clear(b, k, e)
  {
    hide Pow, Over, Scale, InBinade;
    PowerUnits(b, k, e);
    PowerUnits(b, k, binade);
    BinadeUnits(Pow(b, Up(k)), Pow(b, Up(-k)), e);
    BinadeUnits(Pow(b, Up(k)), Pow(b, Up(-k)), binade);
    if TWO52 * Over(b, -k, e - 53) < Under(b, -k, e - 53) < TWO53 * Over(b, -k, e - 53) {
      BinadeUnique(Pow(b, Up(k)), Pow(b, Up(-k)), e, binade);
    }
  }

  // ---------- the limits in every radix ----------

  /** radix^UpperLimit, for radix 2 to 36. */
  const upperPowers: seq<nat> :=
    [288230376151711744, 4052555153018976267, 18446744073709551616, 37252902984619140625,
     170581728179578208256, 191581231380566414401, 590295810358705651712, 984770902183611232881,
     1000000000000000000000, 7400249944258160101211, 3833759992447475122176, 19004963774880799438801,
     5976303958948914397184, 22168378200531005859375, 75557863725914323419136, 14063084452067724991009,
     39346408075296537575424, 104127350297911241532841, 262144000000000000000000, 630880792396715529789561,
     66249952919459433152512, 141050039560662968926103, 290797794982682557415424, 582076609134674072265625,
     1133827315385150725554176, 2153693963075557766310747, 3996561798506898509529088, 250246473680347348787521,
     430467210000000000000000, 727423121747185263828481, 1208925819614629174706176, 1977985201462558877934081,
     3189059870763703892770816, 5070942774902496337890625, 7958661109946400884391936]

  /** The binades of radix^UpperLimit, for radix 2 to 36. */
  const upperBinades: seq<nat> :=
    [59, 62, 65, 66, 68, 68, 70, 70, 70, 73, 72, 75, 73, 75,
     77, 74, 76, 77, 78, 80, 76, 77, 78, 79, 80, 81, 82, 78,
     79, 80, 81, 81, 82, 83, 83]

  /** The binades of radix^-6, for radix 2 to 36. */
  const lowerBinades: seq<int> :=
    [-5, -9, -11, -13, -15, -16, -17, -19, -19, -20, -21, -22, -22, -23,
     -23, -24, -25, -25, -25, -26, -26, -27, -27, -27, -28, -28, -28, -29,
     -29, -29, -29, -30, -30, -30, -31]

  lemma FourthPower(b: nat, q: nat, r: nat, x: nat, y: nat)
    requires Pow(b, q) == x && Pow(b, r) == y
    ensures Pow(b, 4 * q + r) == x * x * (x * x) * y
  {
    hide Pow;
    PowAdd(b, q, q);
    PowAdd(b, 2 * q, 2 * q);
    PowAdd(b, 4 * q, r);
  }

  lemma QuarterPowers1()
    ensures Pow(3, 9) == 19683 && Pow(3, 3) == 27
    ensures Pow(5, 7) == 78125 && Pow(5, 0) == 1
    ensures Pow(6, 6) == 46656 && Pow(6, 2) == 36
    ensures Pow(7, 6) == 117649 && Pow(7, 0) == 1
    ensures Pow(9, 5) == 59049 && Pow(9, 2) == 81
  {
  }

  lemma UpperPowers1()
    ensures Pow(3, 39) == 4052555153018976267
    ensures Pow(5, 28) == 37252902984619140625
    ensures Pow(6, 26) == 170581728179578208256
    ensures Pow(7, 24) == 191581231380566414401
    ensures Pow(9, 22) == 984770902183611232881
  {
    hide Pow;
    QuarterPowers1();
    FourthPower(3, 9, 3, 19683, 27);
    FourthPower(5, 7, 0, 78125, 1);
    FourthPower(6, 6, 2, 46656, 36);
    FourthPower(7, 6, 0, 117649, 1);
    FourthPower(9, 5, 2, 59049, 81);
  }

  lemma QuarterPowers2()
    ensures Pow(10, 5) == 100000 && Pow(10, 1) == 10
    ensures Pow(11, 5) == 161051 && Pow(11, 1) == 11
    ensures Pow(12, 5) == 248832 && Pow(12, 0) == 1
    ensures Pow(13, 5) == 371293 && Pow(13, 0) == 1
    ensures Pow(14, 4) == 38416 && Pow(14, 3) == 2744
  {
  }

  lemma UpperPowers2()
    ensures Pow(10, 21) == 1000000000000000000000
    ensures Pow(11, 21) == 7400249944258160101211
    ensures Pow(12, 20) == 3833759992447475122176
    ensures Pow(13, 20) == 19004963774880799438801
    ensures Pow(14, 19) == 5976303958948914397184
  {
    hide Pow;
    QuarterPowers2();
    FourthPower(10, 5, 1, 100000, 10);
    FourthPower(11, 5, 1, 161051, 11);
    FourthPower(12, 5, 0, 248832, 1);
    FourthPower(13, 5, 0, 371293, 1);
    FourthPower(14, 4, 3, 38416, 2744);
  }

  lemma QuarterPowers3()
    ensures Pow(15, 4) == 50625 && Pow(15, 3) == 3375
    ensures Pow(17, 4) == 83521 && Pow(17, 2) == 289
    ensures Pow(18, 4) == 104976 && Pow(18, 2) == 324
    ensures Pow(19, 4) == 130321 && Pow(19, 2) == 361
    ensures Pow(20, 4) == 160000 && Pow(20, 2) == 400
  {
  }

  lemma UpperPowers3()
    ensures Pow(15, 19) == 22168378200531005859375
    ensures Pow(17, 18) == 14063084452067724991009
    ensures Pow(18, 18) == 39346408075296537575424
    ensures Pow(19, 18) == 104127350297911241532841
    ensures Pow(20, 18) == 262144000000000000000000
  {
    hide Pow;
    QuarterPowers3();
    FourthPower(15, 4, 3, 50625, 3375);
    FourthPower(17, 4, 2, 83521, 289);
    FourthPower(18, 4, 2, 104976, 324);
    FourthPower(19, 4, 2, 130321, 361);
    FourthPower(20, 4, 2, 160000, 400);
  }

  lemma QuarterPowers4()
    ensures Pow(21, 4) == 194481 && Pow(21, 2) == 441
    ensures Pow(22, 4) == 234256 && Pow(22, 1) == 22
    ensures Pow(23, 4) == 279841 && Pow(23, 1) == 23
    ensures Pow(24, 4) == 331776 && Pow(24, 1) == 24
    ensures Pow(25, 4) == 390625 && Pow(25, 1) == 25
  {
  }

  lemma UpperPowers4()
    ensures Pow(21, 18) == 630880792396715529789561
    ensures Pow(22, 17) == 66249952919459433152512
    ensures Pow(23, 17) == 141050039560662968926103
    ensures Pow(24, 17) == 290797794982682557415424
    ensures Pow(25, 17) == 582076609134674072265625
  {
    hide Pow;
    QuarterPowers4();
    FourthPower(21, 4, 2, 194481, 441);
    FourthPower(22, 4, 1, 234256, 22);
    FourthPower(23, 4, 1, 279841, 23);
    FourthPower(24, 4, 1, 331776, 24);
    FourthPower(25, 4, 1, 390625, 25);
  }

  lemma QuarterPowers5()
    ensures Pow(26, 4) == 456976 && Pow(26, 1) == 26
    ensures Pow(27, 4) == 531441 && Pow(27, 1) == 27
    ensures Pow(28, 4) == 614656 && Pow(28, 1) == 28
    ensures Pow(29, 4) == 707281 && Pow(29, 0) == 1
    ensures Pow(30, 4) == 810000 && Pow(30, 0) == 1
  {
  }

  lemma UpperPowers5()
    ensures Pow(26, 17) == 1133827315385150725554176
    ensures Pow(27, 17) == 2153693963075557766310747
    ensures Pow(28, 17) == 3996561798506898509529088
    ensures Pow(29, 16) == 250246473680347348787521
    ensures Pow(30, 16) == 430467210000000000000000
  {
    hide Pow;
    QuarterPowers5();
    FourthPower(26, 4, 1, 456976, 26);
    FourthPower(27, 4, 1, 531441, 27);
    FourthPower(28, 4, 1, 614656, 28);
    FourthPower(29, 4, 0, 707281, 1);
    FourthPower(30, 4, 0, 810000, 1);
  }

  lemma QuarterPowers6()
    ensures Pow(31, 4) == 923521 && Pow(31, 0) == 1
    ensures Pow(33, 4) == 1185921 && Pow(33, 0) == 1
    ensures Pow(34, 4) == 1336336 && Pow(34, 0) == 1
    ensures Pow(35, 4) == 1500625 && Pow(35, 0) == 1
    ensures Pow(36, 4) == 1679616 && Pow(36, 0) == 1
  {
  }

  lemma UpperPowers6()
    ensures Pow(31, 16) == 727423121747185263828481
    ensures Pow(33, 16) == 1977985201462558877934081
    ensures Pow(34, 16) == 3189059870763703892770816
    ensures Pow(35, 16) == 5070942774902496337890625
    ensures Pow(36, 16) == 7958661109946400884391936
  {
    hide Pow;
    QuarterPowers6();
    FourthPower(31, 4, 0, 923521, 1);
    FourthPower(33, 4, 0, 1185921, 1);
    FourthPower(34, 4, 0, 1336336, 1);
    FourthPower(35, 4, 0, 1500625, 1);
    FourthPower(36, 4, 0, 1679616, 1);
  }

  lemma UpperPower(radix: nat)
    requires 2 <= radix <= 36 && !PowerOfTwo(radix)
    ensures Pow(radix, UpperLimit(radix)) == upperPowers[radix - 2]
  {
    hide Pow;
    if radix <= 9 {
      UpperPowers1();
    } else if radix <= 14 {
      UpperPowers2();
    } else if radix <= 20 {
      UpperPowers3();
    } else if radix <= 25 {
      UpperPowers4();
    } else if radix <= 30 {
      UpperPowers5();
    } else {
      UpperPowers6();
    }
  }

  /** radix^6, for radix 2 to 36. */
  const sixthPowers: seq<nat> :=
    [64, 729, 4096, 15625, 46656, 117649, 262144, 531441, 1000000,
     1771561, 2985984, 4826809, 7529536, 11390625, 16777216, 24137569, 34012224, 47045881,
     64000000, 85766121, 113379904, 148035889, 191102976, 244140625, 308915776, 387420489, 481890304,
     594823321, 729000000, 887503681, 1073741824, 1291467969, 1544804416, 1838265625, 2176782336]

  lemma SixthPower(radix: nat)
    requires 2 <= radix <= 36
    ensures Pow(radix, 6) == radix * radix * radix * (radix * radix * radix) && Pow(radix, 6) == sixthPowers[radix - 2]
  {
    PowerOfSix(radix);
    Cubes(radix);
  }

  lemma PowerOfSix(b: nat)
    ensures Pow(b, 6) == b * b * b * (b * b * b)
  {
    hide Pow;
    PowAdd(b, 3, 3);
    PowAdd(b, 1, 2);
    PowAdd(b, 1, 1);
    PowOne(b);
  }

  lemma Cubes(radix: nat)
    requires 2 <= radix <= 36
    ensures radix * radix * radix * (radix * radix * radix) == sixthPowers[radix - 2]
  {
  }

  const twoPowers: seq<nat> :=
    [1, 2, 4, 8, 16, 32, 64, 128,
     256, 512, 1024, 2048, 4096, 8192, 16384, 32768,
     65536, 131072, 262144, 524288, 1048576, 2097152, 4194304, 8388608,
     16777216, 33554432, 67108864, 134217728, 268435456, 536870912, 1073741824, 2147483648]

  lemma {:induction false} TwoPower(t: nat)
    requires t < 32
    ensures Pow(2, t) == twoPowers[t]
  {
    hide Pow;
    PowOne(2);
    if t > 0 {
      TwoPower(t - 1);
      PowSucc(2, t - 1);
    }
  }

  lemma UpperTable(radix: nat)
    requires 2 <= radix <= 36 && !PowerOfTwo(radix)
    ensures var b := upperBinades[radix - 2]; 53 <= b < 85 && (TWO52 + 1) * twoPowers[b - 53] <= upperPowers[radix - 2] < TWO53 * twoPowers[b - 53]
  {
  }

  lemma LowerTable(radix: nat)
    requires 2 <= radix <= 36 && !PowerOfTwo(radix)
    ensures var b := lowerBinades[radix - 2]; -32 < b <= 0 && (TWO52 + 1) * sixthPowers[radix - 2] <= TWO53 * twoPowers[-b] < TWO53 * sixthPowers[radix - 2]
  {
  }

  lemma UpperBinade(radix: nat) returns (b: nat)
    requires 2 <= radix <= 36 && !PowerOfTwo(radix)
    ensures b >= 53 && (TWO52 + 1) * Pow(2, b - 53) <= Pow(radix, UpperLimit(radix)) < TWO53 * Pow(2, b - 53)
  {
    hide Pow, MaxDigits;
    UpperTable(radix);
    UpperPower(radix);
    b := upperBinades[radix - 2];
    TwoPower(b - 53);
  }

  lemma LowerLimitBinade(radix: nat) returns (b: int)
    requires 2 <= radix <= 36 && !PowerOfTwo(radix)
    ensures b <= 0 && (TWO52 + 1) * Pow(radix, 6) <= TWO53 * Pow(2, -b) < TWO53 * Pow(radix, 6)
  {
    hide Pow;
    LowerTable(radix);
    SixthPower(radix);
    b := lowerBinades[radix - 2];
    TwoPower(-b);
  }

  lemma ClearUpper(radix: nat, e: int)
    requires 2 <= radix <= 36
    ensures Clear(radix, UpperLimit(radix), e)
  {
    hide Pow, Clear, MaxDigits, BoundsOf;
    if PowerOfTwo(radix) {
      BinaryRadix(radix);
      ClearBinary(radix, BoundsOf(radix).q1, UpperLimit(radix), e);
    } else {
      var k := UpperLimit(radix);
      var b := UpperBinade(radix);
      PowOne(radix);
      PowOne(2);
      ClearAt(radix, k, e, b);
    }
  }

  lemma ClearLower(radix: nat, e: int)
    requires 2 <= radix <= 36
    ensures Clear(radix, LOWER_LIMIT, e)
  {
    hide Pow, Clear, BoundsOf;
    if PowerOfTwo(radix) {
      BinaryRadix(radix);
      ClearBinary(radix, BoundsOf(radix).q1, LOWER_LIMIT, e);
    } else {
      var b := LowerLimitBinade(radix);
      Twos();
      PowAdd(2, 53, -b);
      PowOne(radix);
      PowOne(2);
      ClearAt(radix, LOWER_LIMIT, e, b);
    }
  }

  lemma OrdinaryLimit(radix: nat, k: int)
    requires 2 <= radix <= 36 && k >= LOWER_LIMIT
    ensures Ordinary(Pow(radix, Up(k)), Pow(radix, Up(-k)))
  {
    hide Pow;
    PowMonotone(radix, Up(-k), 6);
    PowBaseMonotone(radix, 64, 6);
    PowMul(2, 6, 6);
    SixtyFour();
    PowMonotone(2, 36, 1021);
    PowPositive(radix, Up(k));
    MulAtLeast(Pow(2, 1021), Pow(radix, Up(k)));
    Assoc(Pow(radix, Up(k)), Pow(2, 1021), 1);
  }

  lemma SixtyFour()
    ensures Pow(2, 6) == 64
  {
  }

  /** Where the free format begins to show an exponent, and where the digits begin behind a zero: decided exactly by
      the double and the nearest doubles to the limits. */
  lemma FoundLimits(m: nat, e: int, radix: nat, mant: nat, p: nat, ee: int, e0: int)
    requires 2 <= radix <= 36 && TWO52 <= m < TWO53 && Bracket(radix, e0, e)
    requires SearchResult(mant, p, ee, m, e, radix, e0, MaxDigits(radix)) && 1 <= p && Pow(radix, p - 1) <= mant < Pow(radix, p)
    ensures ee > UpperLimit(radix) <==> NotBelow(m, e, radix, UpperLimit(radix))
    ensures ee > LOWER_LIMIT <==> NotBelow(m, e, radix, LOWER_LIMIT)
    ensures ee > 0 <==> NotBelow(m, e, radix, 0)
  {
    hide Pow, Clear, MaxDigits, Ordinary, Bracket, SearchResult, NotBelow;
    OrdinaryLimit(radix, UpperLimit(radix));
    OrdinaryLimit(radix, LOWER_LIMIT);
    OrdinaryLimit(radix, 0);
    ClearUpper(radix, e);
    ClearLower(radix, e);
    ClearOne(radix, e);
    FoundAbove(m, e, radix, UpperLimit(radix), mant, p, ee, e0, MaxDigits(radix));
    FoundAbove(m, e, radix, LOWER_LIMIT, mant, p, ee, e0, MaxDigits(radix));
    FoundAbove(m, e, radix, 0, mant, p, ee, e0, MaxDigits(radix));
  }

  /** A limit that is a double itself is simply compared with. */
  lemma ExactLimit(m: nat, e: int, b: nat, k: int, m1: nat, e1: int)
    requires 2 <= b && TWO52 <= m < TWO53 && Canonical(m1, e1) && m1 * Over(b, -k, e1 - 53) == Under(b, -k, e1 - 53)
    ensures NotBelow(m, e, b, k) <==> AtLeastPower(m, e, b, k)
  {
    hide Pow, IsDouble, Over, Canonical;
    PowerUnits(b, k, e1);
    if IsDouble(m, e, Pow(b, Up(k)), Pow(b, Up(-k)), NearestEven) {
      CloseRounds(m1, e1, Pow(b, Up(k)), Pow(b, Up(-k)));
      DoubleUnique(m, e, m1, e1, Pow(b, Up(k)), Pow(b, Up(-k)), NearestEven);
    }
  }

  // ---------- the tables are as tight as they can be ----------

  lemma StrictlyBelow(radix: nat, n: nat, a: nat)
    requires 2 <= radix <= 36 && n * BoundsOf(radix).q1 < BoundsOf(radix).p1 * a && a > 0
    ensures Pow(radix, n) < Pow(2, a)
  {
    hide Pow, BoundsOf;
    TableBelow(radix, n, a);
    if PowerOfTwo(radix) {
      BinaryRadix(radix);
      var k := BoundsOf(radix).q1;
      PowMul(2, k, n);
      Assoc(k, n, 1);
      PowStrict(2, k * n, a);
    }
  }

  lemma TightDigitCounts(radix: nat)
    requires 2 <= radix <= 36
    ensures (MaxDigits(radix) - 2) * BoundsOf(radix).q1 < BoundsOf(radix).p1 * 53
  {
  }

  lemma TightMaxExponents(radix: nat)
    requires 2 <= radix <= 36 && radix != 11
    ensures (MaxExponent(radix) - 1) * BoundsOf(radix).q1 < BoundsOf(radix).p1 * 1024
  {
  }

  lemma TightMinExponents(radix: nat)
    requires 2 <= radix <= 36
    ensures (MinExponent(radix) - 1) * BoundsOf(radix).q1 < BoundsOf(radix).p1 * 1075
  {
  }

  lemma TightBinaryCounts(radix: nat)
    requires 2 <= radix <= 36 && PowerOfTwo(radix)
    ensures AtodMaxDigits(radix) * BoundsOf(radix).q1 <= 64 < (AtodMaxDigits(radix) + 1) * BoundsOf(radix).q1
  {
  }

  lemma TightOtherCounts(radix: nat)
    requires 2 <= radix <= 36 && !PowerOfTwo(radix)
    ensures radix != 11 ==> AtodMaxDigits(radix) * BoundsOf(radix).q1 < BoundsOf(radix).p1 * 128
  {
  }

  lemma OneMoreCount(radix: nat)
    requires 2 <= radix <= 36 && !PowerOfTwo(radix)
    ensures (AtodMaxDigits(radix) + 1) * BoundsOf(radix).q2 >= BoundsOf(radix).p2 * 128
  {
  }

  lemma NinthPowerOf11()
    ensures Pow(11, 9) == 2357947691 && Pow(11, 1) == 11
  {
  }

  /** The one close case: 11^37 is just below 2^128. */
  lemma Eleven()
    ensures Pow(11, 37) < Pow(2, 128) && Pow(11, 296) < Pow(2, 1024)
  {
    hide Pow;
    NinthPowerOf11();
    FourthPower(11, 9, 1, 2357947691, 11);
    BaseIsPow();
    PowOne(2);
    FourthPower(2, 32, 0, BASE, 1);
    PowMul(11, 37, 8);
    PowMul(2, 128, 8);
    PowBaseStrict(Pow(11, 37), Pow(2, 128), 8);
  }

  lemma {:induction false} PowBaseStrict(a: nat, b: nat, n: nat)
    requires a < b && n > 0
    ensures Pow(a, n) < Pow(b, n)
  {
    PowOne(a);
    PowOne(b);
    if n > 1 {
      PowBaseStrict(a, b, n - 1);
      PowPositive(b, n - 1);
      MulMono(Pow(a, n - 1), Pow(b, n - 1), a);
      MulLess(Pow(b, n - 1), a, b);
    }
  }

  lemma ElevenCounts()
    ensures MaxExponent(11) == 297 && AtodMaxDigits(11) == 37
  {
  }

  /** The digit counts for printing are the least that tell all doubles apart, and the exponents of overflow and underflow
      the least that are certain. */
  lemma LeastCounts(radix: nat)
    requires 2 <= radix <= 36
    ensures Pow(radix, MaxDigits(radix) - 2) < TWO53 <= Pow(radix, MaxDigits(radix) - 1)
    ensures MaxExponent(radix) > 0 && Pow(radix, MaxExponent(radix) - 1) < Pow(2, 1024) <= Pow(radix, MaxExponent(radix))
    ensures MinExponent(radix) > 0 && Pow(radix, MinExponent(radix) - 1) < Pow(2, 1075) <= Pow(radix, MinExponent(radix))
  {
    hide Pow, BoundsOf, MaxDigits, MaxExponent, MinExponent;
    Twos();
    EnoughDigits(radix);
    ExponentsBound(radix);
    MaxExponentTable(radix);
    MinExponentTable(radix);
    TightDigitCounts(radix);
    TightMinExponents(radix);
    StrictlyBelow(radix, MaxDigits(radix) - 2, 53);
    if radix == 11 {
      Eleven();
      ElevenCounts();
    } else {
      TightMaxExponents(radix);
      StrictlyBelow(radix, MaxExponent(radix) - 1, 1024);
    }
    StrictlyBelow(radix, MinExponent(radix) - 1, 1075);
  }

  /** The digits kept for reading are all that fit 128 bits, or 64 bits in a radix that is a power of two. */
  lemma GreatestKept(radix: nat)
    requires 2 <= radix <= 36
    ensures var a := if PowerOfTwo(radix) then 64 else 128;
            Pow(radix, AtodMaxDigits(radix)) <= Pow(2, a) <= Pow(radix, AtodMaxDigits(radix) + 1)
  {
    hide Pow, BoundsOf, AtodMaxDigits;
    var n := AtodMaxDigits(radix);
    if PowerOfTwo(radix) {
      TightBinaryCounts(radix);
      BinaryRadix(radix);
      var k := BoundsOf(radix).q1;
      PowMul(2, k, n);
      PowMul(2, k, n + 1);
      Assoc(k, n, 1);
      Assoc(k, n + 1, 1);
      PowMonotone(2, k * n, 64);
      PowMonotone(2, 64, k * (n + 1));
    } else {
      OneMoreCount(radix);
      TableAbove(radix, n + 1, 128);
      if radix == 11 {
        Eleven();
        ElevenCounts();
      } else {
        TightOtherCounts(radix);
        StrictlyBelow(radix, n, 128);
      }
    }
  }
}
