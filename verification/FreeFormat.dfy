// The free-format loop of js_dtoa: the digits it settles on convert back to the number printed.
module FreeFormatFacts {
  import opened Arithmetic
  import opened Limbs
  import opened Rounding
  import opened Powers
  import opened Logarithms
  import opened PowerScaling
  import opened Binary64

  // ---------- ratios B^i * 2^j ----------

  function Over(b: nat, i: int, j: int): nat { Pow(b, Up(i)) * Pow(2, Up(j)) }

  function Under(b: nat, i: int, j: int): nat { Over(b, -i, -j) }

  lemma OverPositive(b: nat, i: int, j: int)
    requires b > 0
    ensures Over(b, i, j) > 0 && Under(b, i, j) > 0
  {
    hide Pow;
    PowPositive(b, Up(i));
    PowPositive(2, Up(j));
    PowPositive(b, Up(-i));
    PowPositive(2, Up(-j));
    MulAtLeast(Pow(b, Up(i)), Pow(2, Up(j)));
    MulAtLeast(Pow(b, Up(-i)), Pow(2, Up(-j)));
  }

  lemma SignedPowers(b: nat, i: int, i': int)
    ensures Pow(b, Up(i + i')) * (Pow(b, Up(-i)) * Pow(b, Up(-i'))) == Pow(b, Up(-(i + i'))) * (Pow(b, Up(i)) * Pow(b, Up(i')))
  {
    hide Pow;
    PowAdd(b, Up(-i), Up(-i'));
    PowAdd(b, Up(i), Up(i'));
    PowAdd(b, Up(i + i'), Up(-i) + Up(-i'));
    PowAdd(b, Up(-(i + i')), Up(i) + Up(i'));
  }

  /** Ratios multiply by adding their exponents. */
  lemma RatioTimes(b: nat, i: int, j: int, i': int, j': int)
    ensures Over(b, i + i', j + j') * (Under(b, i, j) * Under(b, i', j')) == Under(b, i + i', j + j') * (Over(b, i, j) * Over(b, i', j'))
  {
    hide Pow;
    SignedPowers(b, i, i');
    SignedPowers(2, j, j');
    SixFactors(Pow(b, Up(i + i')), Pow(2, Up(j + j')), Pow(b, Up(-i)), Pow(2, Up(-j)), Pow(b, Up(-i')), Pow(2, Up(-j')));
    SixFactors(Pow(b, Up(-(i + i'))), Pow(2, Up(-(j + j'))), Pow(b, Up(i)), Pow(2, Up(j)), Pow(b, Up(i')), Pow(2, Up(j')));
    assert -i + -i' == -(i + i') && -j + -j' == -(j + j');
  }

  lemma SixFactors(p: int, q: int, r: int, s: int, t: int, u: int)
    ensures p * q * (r * s * (t * u)) == p * (r * t) * (q * (s * u))
  {
    Interchange(r, s, t, u);
    Interchange(p, q, r * t, s * u);
  }

  /** What `E0` is: B^(E0-1) <= 2^(e-1) < B^E0. */
  predicate Bracket(b: nat, e0: int, e: int)
  {
    Over(b, e0 - 1, 1 - e) <= Under(b, e0 - 1, 1 - e) && Over(b, e0, 1 - e) > Under(b, e0, 1 - e)
  }

  lemma BracketLow(b: nat, e0: int, e: int, p: nat)
    requires b > 0 && Bracket(b, e0, e) && p >= 1
    ensures Pow(b, p - 1) * Under(b, p - e0, e - 53) <= TWO52 * Over(b, p - e0, e - 53)
  {
    hide Pow, Over;
    var n1, d1 := Over(b, e0 - 1, 1 - e), Under(b, e0 - 1, 1 - e);
    var n2, d2 := Over(b, p - e0, e - 53), Under(b, p - e0, e - 53);
    RatioTimes(b, e0 - 1, 1 - e, p - e0, e - 53);
    assert e0 - 1 + (p - e0) == p - 1 && 1 - e + (e - 53) == -52;
    WholePower(b, p - 1);
    OverPositive(b, e0 - 1, 1 - e);
    OverPositive(b, p - e0, e - 53);
    CancelLow(Pow(b, p - 1), TWO52, n1, d1, n2, d2);
  }

  lemma CancelLow(x: nat, y: nat, n1: nat, d1: nat, n2: nat, d2: nat)
    requires x * (d1 * d2) == y * (n1 * n2) && n1 <= d1 && d1 > 0
    ensures x * d2 <= y * n2
  {
    MulMono(n1, d1, n2);
    MulMono(n1 * n2, d1 * n2, y);
    MovedFactor(x, d1, d2);
    MovedFactor(y, d1, n2);
    MulCancel(x * d2, y * n2, d1);
  }

  lemma CancelHigh(x: nat, y: nat, n1: nat, d1: nat, n2: nat, d2: nat)
    requires x * (d1 * d2) == y * (n1 * n2) && n1 > d1 && d1 > 0 && y > 0 && n2 > 0
    ensures x * d2 > y * n2
  {
    MulLess(n2, d1, n1);
    MulLess(y, d1 * n2, n1 * n2);
    MovedFactor(x, d1, d2);
    MovedFactor(y, d1, n2);
    MulCancel(y * n2, x * d2, d1);
  }

  lemma MovedFactor(x: int, d: int, z: int)
    ensures x * (d * z) == x * z * d
  {
    Assoc(x, z, d);
    Assoc(z, d, 1);
  }

  lemma WholePower(b: nat, p: nat)
    ensures Over(b, p, -52) == Pow(b, p) && Under(b, p, -52) == TWO52
  {
    hide Pow;
    Twos();
    PowOne(2);
    PowOne(b);
    assert Pow(b, p) * 1 == Pow(b, p);
  }

  lemma BracketHigh(b: nat, e0: int, e: int, p: nat)
    requires b > 0 && Bracket(b, e0, e)
    ensures TWO52 * Over(b, p - e0, e - 53) < Pow(b, p) * Under(b, p - e0, e - 53)
  {
    hide Pow, Over;
    var n1, d1 := Over(b, e0, 1 - e), Under(b, e0, 1 - e);
    var n2, d2 := Over(b, p - e0, e - 53), Under(b, p - e0, e - 53);
    RatioTimes(b, e0, 1 - e, p - e0, e - 53);
    assert e0 + (p - e0) == p && 1 - e + (e - 53) == -52;
    WholePower(b, p);
    OverPositive(b, e0, 1 - e);
    OverPositive(b, p - e0, e - 53);
    CancelHigh(Pow(b, p), TWO52, n1, d1, n2, d2);
  }

  /** Raising `E` by one divides the ratio by the radix. */
  lemma NextExponent(b: nat, i: int, j: int)
    requires b > 0
    ensures Over(b, i, j) * Under(b, i - 1, j) == b * (Over(b, i - 1, j) * Under(b, i, j))
  {
    hide Pow;
    var x, y := Pow(b, Up(i - 1)), Pow(b, Up(-i));
    if i > 0 {
      PowAdd(b, 1, i - 1);
      PowOne(b);
      assert Up(-i) == 0 && Up(1 - i) == 0;
      FourFactors(b, x, Pow(2, Up(j)), y, Pow(2, Up(-j)));
    } else {
      PowAdd(b, 1, -i);
      PowOne(b);
      assert Up(i) == 0 && Up(i - 1) == 0;
      FourFactors(b, x, Pow(2, Up(j)), y, Pow(2, Up(-j)));
    }
  }

  lemma FourFactors(b: int, x: int, u: int, y: int, v: int)
    ensures b * x * u * (y * v) == b * (x * u * (y * v)) && x * u * (b * y * v) == b * (x * u * (y * v))
  {
    Assoc(b, x, u);
    Assoc(b, x * u, y * v);
    Assoc(b, y, v);
    Assoc(x * u, b, y * v);
    Assoc(b, x * u, y * v);
  }

  // ---------- how many digits are enough ----------

  /** dtoa_max_digits_table, for radix 2 to 36. */
  const dtoaMaxDigitsTable: seq<nat> :=
    [54, 35, 28, 24, 22, 20, 19, 18, 17, 17, 16, 16, 15, 15, 15, 14, 14, 14, 14, 14,
     13, 13, 13, 13, 13, 13, 13, 12, 12, 12, 12, 12, 12, 12, 12]

  function MaxDigits(radix: nat): (p: nat)
    requires 2 <= radix <= 36
    ensures 12 <= p <= 54
  {
    dtoaMaxDigitsTable[radix - 2]
  }

  lemma MaxDigitTable(radix: nat)
    requires 2 <= radix <= 36
    ensures var r := BoundsOf(radix);
            (MaxDigits(radix) - 1) * r.q2 >= r.p2 * 53 && MaxDigits(radix) * r.q1 <= r.p1 * if PowerOfTwo(radix) then 62 else 63
  {
  }

  /** dtoa_max_digits_table: enough digits to tell any two doubles apart, and few enough to fit 64 bits. */
  lemma EnoughDigits(radix: nat)
    requires 2 <= radix <= 36
    ensures Pow(radix, MaxDigits(radix) - 1) >= TWO53 && 2 * Pow(radix, MaxDigits(radix)) < TWO64
  {
    hide Pow, BoundsOf;
    MaxDigitTable(radix);
    TableAbove(radix, MaxDigits(radix) - 1, 53);
    TableBelow(radix, MaxDigits(radix), if PowerOfTwo(radix) then 62 else 63);
    Twos();
    PowAdd(2, 53, 9);
    PowAdd(2, 62, 1);
    assert Pow(2, 9) == 512 && Pow(2, 1) == 2 by {
      NinthPower();
    }
  }

  lemma NinthPower()
    ensures Pow(2, 9) == 512 && Pow(2, 1) == 2
  {
  }

  // ---------- enough digits determine the number ----------

  /** One unit in the last place is `d` here, and the printed number is `n`: they are close enough that rounding `n`
      gives `m` back. When `m` is a power of two the numbers just below it lie twice as dense. */
  predicate Close(m: nat, n: nat, d: nat)
  {
    0 - d < 2 * (n - m * d) < d && (m == TWO52 && n < m * d ==> 4 * (m * d - n) <= d)
  }

  /** The mantissa and exponent of a binary64 number, subnormals left-justified as js_dtoa does. */
  predicate Canonical(m: nat, e: int)
  {
    TWO52 <= m < TWO53 && -1073 <= e && (PowPositive(2, Spare(e)); m % Pow(2, Spare(e)) == 0)
  }

  lemma CanonicalSize(m: nat, e: int)
    requires Canonical(m, e)
    ensures 0 < TWO52 <= m < TWO53
  {
  }

  /** Whatever is close to a double rounds to it. */
  lemma CloseRounds(m: nat, e: int, x: nat, y: nat)
    requires Canonical(m, e) && y > 0 && Close(m, Scale(x, 53 - e), Scale(y, e - 53))
    ensures IsDouble(m, e, x, y, NearestEven)
  {
    hide Pow, IsRound, Represents, Scale, Canonical, Close, IsDouble;
    var n, d := Scale(x, 53 - e), Scale(y, e - 53);
    ScalePositive(y, e - 53);
    CloseFacts(m, e, n, d);
    if n >= TWO52 * d {
      CloseAbove(m, e, x, y, n, d);
    } else {
      CloseBelow(m, e, x, y, n, d);
    }
  }

  lemma CloseFacts(m: nat, e: int, n: nat, d: nat)
    requires Canonical(m, e) && Close(m, n, d) && d > 0
    ensures TWO51 * d <= n < TWO53 * d && TWO52 <= m < TWO53 && -1073 <= e
    ensures n < TWO52 * d ==> m == TWO52 && 4 * (m * d - n) <= d
  {
    hide Pow;
    MulMono(TWO52, m, d);
    MulMono(m, TWO53 - 1, d);
    if m > TWO52 {
      MulMono(TWO52 + 1, m, d);
    }
  }

  const TWO51 := 0x8_0000_0000_0000

  /** Units of the last place below the leading bit of the binade. */
  function Spare(binade: int): nat { Up(-1021 - binade) }

  lemma CloseAbove(m: nat, e: int, x: nat, y: nat, n: nat, d: nat)
    requires Canonical(m, e) && y > 0 && n == Scale(x, 53 - e) && d == Scale(y, e - 53) && d > 0
    requires Close(m, n, d) && TWO52 * d <= n < TWO53 * d
    ensures IsDouble(m, e, x, y, NearestEven)
  {
    hide Pow, IsRound, Represents, Scale, Canonical, Close, IsDouble, RoundsInBinade;
    Fifty();
    BinadeOf(x, y, e, 52, e, n, d);
    var q := Subdivide(m, e, x, y, e, n, d);
    DoubleFrom(m, e, x, y, q, e);
  }

  lemma DoubleFrom(m: nat, e: int, x: nat, y: nat, q: nat, binade: int)
    requires InBinade(x, y, binade) && RoundsTo(q, x, y, Precision(binade) - binade, NearestEven) && Represents(m, e, q, binade)
    ensures IsDouble(m, e, x, y, NearestEven)
  {
    hide Represents, InBinade, RoundsTo;
    assert RoundsInBinade(q, binade, x, y, NearestEven);
  }

  /** The binade that a bound on the scaled number puts it in. */
  lemma BinadeOf(x: nat, y: nat, e: int, k: nat, binade: int, n: nat, d: nat)
    requires y > 0 && n == Scale(x, 53 - e) && d == Scale(y, e - 53) && d > 0
    requires binade == e - 52 + k && Pow(2, k) * d <= n < 2 * Pow(2, k) * d
    ensures InBinade(x, y, binade)
  {
    hide Pow;
    PowTimes(y, Up(e - 53), k, Up(e - 53) + k);
    Assoc(2, Pow(2, k), d);
    Assoc(d, Pow(2, k), 1);
    LeadingOne(n, d * Pow(2, k));
    RatioShift(1, x, y, Up(53 - e), Up(e - 53) + k, TowardZero);
  }

  lemma LeadingOne(n: nat, d: nat)
    requires d <= n < 2 * d
    ensures IsRound(1, n, d, TowardZero)
  {
  }

  /** The multiple of the unit in the last place that is the number itself, in a binade where units are no finer than
      those of `m`. */
  lemma Subdivide(m: nat, e: int, x: nat, y: nat, binade: int, n: nat, d: nat) returns (q: nat)
    requires Canonical(m, e) && y > 0 && n == Scale(x, 53 - e) && d == Scale(y, e - 53) && d > 0 && Close(m, n, d)
    requires binade == e || (binade == e - 1 && e <= -1021)
    ensures RoundsTo(q, x, y, Precision(binade) - binade, NearestEven) && Represents(m, e, q, binade)
  {
    hide Pow, IsRound, RoundsTo, SameNumber;
    var s := Spare(e);
    q := Quotient(m, e);
    assert binade - Precision(binade) == e - 53 + s;
    PowPositive(2, s);
    CoarseRound(q, m, n, d, Pow(2, s));
    PowTimes(y, Up(e - 53), s, Up(e - 53) + s);
    Rescaled(q, x, y, e, s, n, d);
    SameAs(m, e, q, s);
  }

  lemma Quotient(m: nat, e: int) returns (q: nat)
    requires Canonical(m, e)
    ensures m == q * Pow(2, Spare(e))
  {
    hide Pow;
    var p := Pow(2, Spare(e));
    PowPositive(2, Spare(e));
    PowOne(2);
    q := m / p;
    DivIs(m, p);
    DivNonneg(m, p);
  }

  lemma CoarseRound(q: nat, m: nat, n: nat, d: nat, p: nat)
    requires m == q * p && p > 0 && d > 0 && 0 - d < 2 * (n - m * d) < d
    ensures IsRound(q, n, d * p, NearestEven)
  {
    MovedFactor(q, p, d);
    Assoc(d, p, 1);
    MulAtLeast(d, p);
  }

  lemma Rescaled(q: nat, x: nat, y: nat, e: int, s: nat, n: nat, d: nat)
    requires y > 0 && n == Scale(x, 53 - e) && d * Pow(2, s) == y * Pow(2, Up(e - 53) + s)
    requires IsRound(q, n, d * Pow(2, s), NearestEven)
    ensures RoundsTo(q, x, y, 53 - e - s, NearestEven)
  {
    hide Pow, IsRound;
    RatioShift(q, x, y, Up(53 - e), Up(e - 53) + s, NearestEven);
  }

  lemma SameAs(m: nat, e: int, q: nat, s: nat)
    requires m == q * Pow(2, s)
    ensures SameNumber(m, e - 53, q, e - 53 + s)
  {
    hide Pow;
    ScaleZero(m, 0 - s);
    PowOne(2);
  }

  /** A number just below a power of two. */
  lemma CloseBelow(m: nat, e: int, x: nat, y: nat, n: nat, d: nat)
    requires Canonical(m, e) && y > 0 && n == Scale(x, 53 - e) && d == Scale(y, e - 53) && d > 0
    requires Close(m, n, d) && TWO51 * d <= n < TWO52 * d && m == TWO52 && 4 * (m * d - n) <= d
    ensures IsDouble(m, e, x, y, NearestEven)
  {
    hide Pow, IsRound, Represents, Scale, Canonical, Close, IsDouble, RoundsInBinade;
    Fifty();
    BinadeOf(x, y, e, 51, e - 1, n, d);
    if e <= -1021 {
      var q := Subdivide(m, e, x, y, e - 1, n, d);
      DoubleFrom(m, e, x, y, q, e - 1);
    } else {
      HalfUnit(m, e, x, y, n, d);
      DoubleFrom(m, e, x, y, TWO53, e - 1);
    }
  }

  lemma Fifty()
    ensures Pow(2, 51) == TWO51 && Pow(2, 52) == TWO52
  {
    Twos();
    assert Pow(2, 52) == 2 * Pow(2, 51);
  }

  lemma HalfUnit(m: nat, e: int, x: nat, y: nat, n: nat, d: nat)
    requires e > -1021 && y > 0 && n == Scale(x, 53 - e) && d == Scale(y, e - 53) && d > 0
    requires n < TWO52 * d && m == TWO52 && 4 * (m * d - n) <= d
    ensures RoundsTo(TWO53, x, y, Precision(e - 1) - (e - 1), NearestEven) && Represents(m, e, TWO53, e - 1)
  {
    hide Pow;
    PowOne(2);
    PowTimes(x, Up(53 - e), 1, Up(53 - e) + 1);
    assert IsRound(TWO53, n * 2, d, NearestEven);
    RatioShift(TWO53, x, y, Up(53 - e) + 1, Up(e - 53), NearestEven);
    ScaleZero(TWO53, -1);
    assert Scale(m, 1) == m * Pow(2, 1);
  }

  // ---------- one try of the loop ----------

  /** The mantissa of `p` digits computed for the exponent `ee`. */
  predicate Tried(f: nat, m: nat, e: int, b: nat, p: nat, ee: int)
  {
    RoundsTo(f, m * Pow(b, Up(p - ee)), Pow(b, Up(ee - p)), e - 53, NearestEven)
  }

  lemma TriedRatio(f: nat, m: nat, e: int, b: nat, p: nat, ee: int)
    requires b > 0 && Tried(f, m, e, b, p, ee)
    ensures Under(b, p - ee, e - 53) > 0 && IsRound(f, m * Over(b, p - ee, e - 53), Under(b, p - ee, e - 53), NearestEven)
  {
    hide Pow, IsRound;
    OverPositive(b, p - ee, e - 53);
    Assoc(m, Pow(b, Up(p - ee)), Pow(2, Up(e - 53)));
    assert -(p - ee) == ee - p && -(e - 53) == 53 - e;
  }

  /** The mantissa for `E0` has at least `p` digits, and fits the 64-bit word it is read from. */
  lemma TryAtE0(f: nat, m: nat, e: int, b: nat, p: nat, e0: int)
    requires b > 1 && p >= 1 && TWO52 <= m < TWO53 && Bracket(b, e0, e) && Tried(f, m, e, b, p, e0)
    ensures Pow(b, p - 1) <= f <= 2 * Pow(b, p)
  {
    hide Pow, Over, Tried, Bracket, IsRound;
    var n, d := Over(b, p - e0, e - 53), Under(b, p - e0, e - 53);
    TriedRatio(f, m, e, b, p, e0);
    BracketLow(b, e0, e, p);
    BracketHigh(b, e0, e, p);
    MulMono(TWO52, m, n);
    MulMono(m, TWO53, n);
    Assoc(2, Pow(b, p), d);
    RoundBounds(f, m * n, d, Pow(b, p - 1), 2 * Pow(b, p), NearestEven);
  }

  /** If that overflows `p` digits, one more than `E0` does not. */
  lemma TryNext(f0: nat, f: nat, m: nat, e: int, b: nat, p: nat, e0: int)
    requires b > 1 && p >= 1 && TWO52 <= m < TWO53 && Bracket(b, e0, e)
    requires Tried(f0, m, e, b, p, e0) && f0 >= Pow(b, p) && Tried(f, m, e, b, p, e0 + 1)
    ensures Pow(b, p - 1) <= f < Pow(b, p)
  {
    hide Pow, Over, Tried, Bracket, IsRound;
    var n, d := Over(b, p - e0, e - 53), Under(b, p - e0, e - 53);
    var n', d' := Over(b, p - (e0 + 1), e - 53), Under(b, p - (e0 + 1), e - 53);
    TriedRatio(f0, m, e, b, p, e0);
    TriedRatio(f, m, e, b, p, e0 + 1);
    BracketHigh(b, e0, e, p);
    NextExponent(b, p - e0, e - 53);
    PowPositive(b, p - 1);
    PowSucc(b, p - 1);
    NextLow(f0, f, m, n, d, n', d', b, Pow(b, p - 1), Pow(b, p));
    if b > 2 {
      NextHigh(f, m, n, d, n', d', b, Pow(b, p - 1), Pow(b, p));
    } else {
      BinaryExponent(e0, e);
      BinaryHigh(f, m, e, p, e0, n', d');
    }
  }

  lemma NextLow(f0: nat, f: nat, m: nat, n: nat, d: nat, n': nat, d': nat, b: nat, y: nat, z: nat)
    requires d > 0 && d' > 0 && b > 1 && z == b * y && f0 >= z && n * d' == b * (n' * d)
    requires IsRound(f0, m * n, d, NearestEven) && IsRound(f, m * n', d', NearestEven)
    ensures 2 * b * (y * d' - m * n') <= d' && y <= f
  {
    MulMono(z, f0, d);
    assert 2 * (z * d - m * n) <= d;
    CrossShift(m, n, d, n', d', b, y, z);
    MulMono(2 * (z * d - m * n), d, d');
    MulCancel(2 * b * (y * d' - m * n'), d', d);
    if f < y {
      MulMono(f + 1, y, d');
      Distrib(d', f, 1);
      Assoc(2, b, y * d' - m * n');
      if y * d' - m * n' > 0 {
        MulMono(2, b, y * d' - m * n');
      }
    }
  }

  lemma CrossShift(m: nat, n: nat, d: nat, n': nat, d': nat, b: nat, y: nat, z: nat)
    requires z == b * y && n * d' == b * (n' * d)
    ensures 2 * (z * d - m * n) * d' == 2 * b * (y * d' - m * n') * d
    ensures (m * n) * d' == b * (m * n') * d && (z * d) * d' == b * (y * d') * d
  {
    CrossTerm(b, y, d, d');
    Assoc(m, n, d');
    CrossTerm(b, n', d, m);
    Distrib(d', z * d, m * n);
    Distrib(d, b * (y * d'), b * (m * n'));
    Distrib(b, y * d', m * n');
    Assoc(2, z * d - m * n, d');
    Assoc(2, b, y * d' - m * n');
    Assoc(2, b * (y * d' - m * n'), d);
  }

  lemma CrossTerm(b: int, y: int, d: int, k: int)
    ensures b * y * d * k == b * (y * k) * d && k * (b * (y * d)) == b * (k * y) * d
  {
    Assoc(b, y, d);
    Assoc(b, y * d, k);
    Assoc(y, d, k);
    Assoc(y, k, d);
    Assoc(b, y * k, d);
    Assoc(k, b, y * d);
    Assoc(b, k, y * d);
    Assoc(k, y, d);
  }

  lemma NextHigh(f: nat, m: nat, n: nat, d: nat, n': nat, d': nat, b: nat, y: nat, z: nat)
    requires d > 0 && d' > 0 && b > 2 && z == b * y && y > 0 && n * d' == b * (n' * d)
    requires TWO52 * n < z * d && m < TWO53 && IsRound(f, m * n', d', NearestEven)
    ensures f < z
  {
    hide IsRound;
    MulMono(m, TWO53, n);
    assert m * n <= 2 * (z * d);
    CrossShift(m, n, d, n', d', b, y, z);
    MulMono(m * n, 2 * (z * d), d');
    Assoc(2, z * d, d');
    MulCancel(b * (m * n'), 2 * (b * (y * d')), d);
    Assoc(2, b * (y * d'), d);
    Assoc(2, b, y * d');
    Assoc(b, 2, y * d');
    MulCancel(m * n', 2 * (y * d'), b);
    Assoc(2, y, d');
    Assoc(m * n', b, 1);
    Assoc(2 * (y * d'), b, 1);
    RoundBounds(f, m * n', d', 0, 2 * y, NearestEven);
    MulLess(y, 2, b);
  }

  /** In radix 2, `E0` is the exponent. */
  lemma BinaryExponent(e0: int, e: int)
    requires Bracket(2, e0, e)
    ensures e0 >= e
  {
    hide Pow;
    if e0 < e {
      PowAdd(2, Up(e0), Up(1 - e));
      PowAdd(2, Up(-e0), Up(e - 1));
      PowMonotone(2, Up(e0) + Up(1 - e), Up(-e0) + Up(e - 1));
    }
  }

  lemma BinaryHigh(f: nat, m: nat, e: int, p: nat, e0: int, n': nat, d': nat)
    requires p >= 1 && e0 >= e && m < TWO53 && d' > 0
    requires n' == Over(2, p - (e0 + 1), e - 53) && d' == Under(2, p - (e0 + 1), e - 53)
    requires IsRound(f, m * n', d', NearestEven)
    ensures f < Pow(2, p)
  {
    hide Pow, IsRound, Over;
    var i, j := p - (e0 + 1), e - 53;
    OverTwo(i, j);
    OverTwo(-i, -j);
    BinaryBound(n', d', Up(i) + Up(j), Up(-i) + Up(-j), p - 1);
    MulMono(m, TWO53, n');
    RoundBounds(f, m * n', d', 0, Pow(2, p - 1), NearestEven);
    PowStrict(2, p - 1, p);
  }

  lemma OverTwo(i: int, j: int)
    ensures Over(2, i, j) == Pow(2, Up(i) + Up(j))
  {
    hide Pow;
    PowAdd(2, Up(i), Up(j));
  }

  lemma BinaryBound(n: nat, d: nat, a: nat, c: nat, k: nat)
    requires n == Pow(2, a) && d == Pow(2, c) && 53 + a <= k + c
    ensures TWO53 * n <= Pow(2, k) * d
  {
    hide Pow;
    Twos();
    PowAdd(2, 53, a);
    PowAdd(2, k, c);
    PowMonotone(2, 53 + a, k + c);
  }

  /** With enough digits the try needs no check: what it found is close to the number. */
  lemma FirstTry(f: nat, m: nat, n: nat, d: nat, y: nat)
    requires d > 0 && TWO52 <= m && y >= TWO53 && y * d <= TWO52 * n && IsRound(f, m * n, d, NearestEven)
    ensures 2 * d <= n && Close(m, f * d, n)
  {
    MulMono(TWO53, y, d);
  }

  lemma SecondTry(f0: nat, f: nat, m: nat, n: nat, d: nat, n': nat, d': nat, b: nat, y: nat, z: nat)
    requires d > 0 && d' > 0 && b > 1 && z == b * y && f0 >= z && n * d' == b * (n' * d) && y >= TWO53 && TWO52 <= m < TWO53
    requires IsRound(f0, m * n, d, NearestEven) && IsRound(f, m * n', d', NearestEven)
    requires 2 * d <= n && TWO52 * n < z * d && y <= f
    ensures Close(m, f * d', n')
  {
    NextLow(f0, f, m, n, d, n', d', b, y, z);
    CrossShift(m, n, d, n', d', b, y, z);
    if m * n >= z * d {
      MulMono(z * d, m * n, d');
      LargeSecond(m, n, d, n', d', b, y, z);
    } else {
      MulLess(d', m * n, z * d);
      SmallSecond(f, m, n, d, n', d', b, y, z);
    }
  }

  /** The number is at least radix^E0. */
  lemma LargeSecond(m: nat, n: nat, d: nat, n': nat, d': nat, b: nat, y: nat, z: nat)
    requires d > 0 && d' > 0 && b > 1 && y >= TWO53 && TWO52 <= m < TWO53 && TWO52 * n < z * d <= m * n
    requires b * (y * d') * d <= b * (m * n') * d
    ensures d' < n' && m > TWO52
  {
    MulCancel(b * (y * d'), b * (m * n'), d);
    MulCancel(y * d', m * n', b);
    Assoc(y * d', b, 1);
    Assoc(m * n', b, 1);
    MulMono(TWO53, y, d');
    if n' <= d' {
      MulMono(n', d', m);
      MulMono(m, TWO53 - 1, d');
    }
  }

  /** The number is just below radix^E0, and is rounded up to it. */
  lemma SmallSecond(f: nat, m: nat, n: nat, d: nat, n': nat, d': nat, b: nat, y: nat, z: nat)
    requires d > 0 && d' > 0 && b > 1 && n * d' == b * (n' * d) && 2 * d <= n && y <= f
    requires b * (m * n') * d < b * (y * d') * d && 2 * b * (y * d' - m * n') <= d'
    requires IsRound(f, m * n', d', NearestEven)
    ensures m * n' < f * d' && 2 * (f * d' - m * n') < n'
  {
    MulCancel(b * (m * n'), b * (y * d'), d);
    Assoc(m * n', b, 1);
    Assoc(y * d', b, 1);
    MulCancel(m * n', y * d', b);
    RoundBounds(f, m * n', d', 0, y, NearestEven);
    assert f == y;
    var x := y * d' - m * n';
    // 2 * d' <= b * n'
    MulMono(2 * d, n, d');
    Assoc(b, n', d);
    Assoc(2, d, d');
    Assoc(2, d', d);
    MulCancel(2 * d', b * n', d);
    Assoc(2, b, x);
    Assoc(b, x, 1);
    MulCancel(4 * x, n', b);
    Assoc(4, x, b);
    Assoc(n', b, 1);
  }
}

module FreeFormatSearch {
  import opened Arithmetic
  import opened Limbs
  import opened Rounding
  import opened Powers
  import opened PowerScaling
  import opened Binary64
  import opened FreeFormatFacts

  /** Reading `mant * radix^(ee - p)` gives the number back. */
  ghost predicate ConvertsBack(mant: nat, p: int, ee: int, m: nat, e: int, radix: nat)
  {
    IsDouble(m, e, mant * Pow(radix, Up(ee - p)), Pow(radix, Up(p - ee)), NearestEven)
  }

  /** The `p` digits of `m * 2^(e - 53)` and the exponent for them: one more than `E0` when rounding to `p` digits for
      `E0` yields a digit too many. */
  ghost predicate Candidate(f: nat, m: nat, e: int, b: nat, p: nat, e0: int, ee: int)
  {
    Tried(f, m, e, b, p, ee) && f < Pow(b, p) && (ee == e0 || (ee == e0 + 1 && Overflows(m, e, b, p, e0)))
  }

  ghost predicate Overflows(m: nat, e: int, b: nat, p: nat, e0: int)
  {
    exists f0: nat :: Tried(f0, m, e, b, p, e0) && f0 >= Pow(b, p)
  }

  /** Rounding to `p` digits and reading them gives the number back. */
  ghost predicate Works(p: nat, m: nat, e: int, b: nat, e0: int)
  {
    exists f: nat, ee :: Candidate(f, m, e, b, p, e0, ee) && ConvertsBack(f, p, ee, m, e, b)
  }

  /** What the search finds: the least digit count from which every count up to the largest works, and its digits. */
  ghost predicate SearchResult(mant: nat, p: nat, ee: int, m: nat, e: int, b: nat, e0: int, pMax: nat)
  {
    Candidate(mant, m, e, b, p, e0, ee) && ConvertsBack(mant, p, ee, m, e, b) &&
    AllWork(p, pMax, m, e, b, e0) && (p > 1 ==> !Works(p - 1, m, e, b, e0))
  }

  ghost predicate AllWork(lo: nat, hi: nat, m: nat, e: int, b: nat, e0: int)
  {
    forall q: nat | lo <= q <= hi :: Works(q, m, e, b, e0)
  }

  lemma WorksAt(q: nat, lo: nat, hi: nat, m: nat, e: int, b: nat, e0: int)
    requires AllWork(lo, hi, m, e, b, e0) && lo <= q <= hi
    ensures Works(q, m, e, b, e0)
  {
  }

  lemma OneWorks(q: nat, m: nat, e: int, b: nat, e0: int)
    ensures Works(q, m, e, b, e0) ==> AllWork(q, q, m, e, b, e0)
  {
    hide Works;
  }

  lemma MoreWork(q: nat, hi: nat, m: nat, e: int, b: nat, e0: int)
    ensures Works(q, m, e, b, e0) && AllWork(q + 1, hi, m, e, b, e0) ==> AllWork(q, hi, m, e, b, e0)
  {
    hide Works;
  }

  lemma JoinWork(lo: nat, mid: nat, hi: nat, m: nat, e: int, b: nat, e0: int)
    requires AllWork(lo, mid, m, e, b, e0) && AllWork(mid + 1, hi, m, e, b, e0)
    ensures AllWork(lo, hi, m, e, b, e0)
  {
    hide Works;
  }

  lemma TriedUnique(f: nat, f': nat, m: nat, e: int, b: nat, p: nat, ee: int)
    requires b > 0 && Tried(f, m, e, b, p, ee) && Tried(f', m, e, b, p, ee)
    ensures f == f'
  {
    hide Pow, RoundsTo;
    PowPositive(b, Up(ee - p));
    RoundsToUnique(f, f', m * Pow(b, Up(p - ee)), Pow(b, Up(ee - p)), e - 53, NearestEven);
  }

  /** A digit count has one candidate. */
  lemma CandidateUnique(f: nat, ee: int, f': nat, ee': int, m: nat, e: int, b: nat, p: nat, e0: int)
    requires b > 0 && Candidate(f, m, e, b, p, e0, ee) && Candidate(f', m, e, b, p, e0, ee')
    ensures f == f' && ee == ee'
  {
    hide Pow, Tried;
    if ee == ee' {
      TriedUnique(f, f', m, e, b, p, ee);
    } else {
      var f0: nat :| Tried(f0, m, e, b, p, e0) && f0 >= Pow(b, p);
      TriedUnique(f0, if ee == e0 then f else f', m, e, b, p, e0);
    }
  }

  /** The digits that the search finds are determined by the number. */
  lemma SearchUnique(mant: nat, p: nat, ee: int, mant': nat, p': nat, ee': int, m: nat, e: int, b: nat, e0: int, pMax: nat)
    requires b > 0 && 1 <= p <= pMax && 1 <= p' <= pMax
    requires SearchResult(mant, p, ee, m, e, b, e0, pMax) && SearchResult(mant', p', ee', m, e, b, e0, pMax)
    ensures mant == mant' && p == p' && ee == ee'
  {
    hide Candidate, ConvertsBack, Works, AllWork;
    if p < p' {
      WorksAt(p' - 1, p, pMax, m, e, b, e0);
    } else if p' < p {
      WorksAt(p - 1, p', pMax, m, e, b, e0);
    } else {
      CandidateUnique(mant, ee, mant', ee', m, e, b, p, e0);
    }
  }

  /** The count works exactly when its candidate converts back. */
  lemma WorksIs(f: nat, m: nat, e: int, b: nat, p: nat, e0: int, ee: int)
    requires b > 0 && Candidate(f, m, e, b, p, e0, ee)
    ensures Works(p, m, e, b, e0) <==> ConvertsBack(f, p, ee, m, e, b)
  {
    hide Candidate, ConvertsBack;
    if Works(p, m, e, b, e0) {
      var f': nat, ee' :| Candidate(f', m, e, b, p, e0, ee') && ConvertsBack(f', p, ee', m, e, b);
      CandidateUnique(f, ee, f', ee', m, e, b, p, e0);
    }
  }

  lemma RatioTried(f: nat, m: nat, e: int, b: nat, p: nat, ee: int)
    requires b > 0 && IsRound(f, m * Over(b, p - ee, e - 53), Under(b, p - ee, e - 53), NearestEven)
    ensures Tried(f, m, e, b, p, ee)
  {
    hide Pow, IsRound;
    Assoc(m, Pow(b, Up(p - ee)), Pow(2, Up(e - 53)));
    assert -(p - ee) == ee - p && -(e - 53) == 53 - e;
  }

  /** A rounding that ends in a zero digit is the rounding to one digit less. */
  lemma RoundShorter(f: nat, g: nat, m: nat, n: nat, d: nat, n': nat, d': nat, b: nat)
    requires d > 0 && d' > 0 && b > 1 && f == b * g && n * d' == b * (n' * d) && IsRound(f, m * n, d, NearestEven)
    ensures IsRound(g, m * n', d', NearestEven)
  {
    CrossShift(m, n, d, n', d', b, g, f);
    var w, x := f * d - m * n, g * d' - m * n';
    HalfOf(w, x, b, d, d');
    NegatedTwice(w, b, x, d, d');
    HalfOf(0 - w, 0 - x, b, d, d');
  }

  lemma HalfOf(w: int, x: int, b: nat, d: nat, d': nat)
    requires d > 0 && d' > 0 && b > 1 && 2 * w * d' == 2 * b * x * d && 2 * w <= d
    ensures 2 * x < d'
  {
    MulMono(2 * w, d, d');
    MulCancel(2 * b * x, d', d);
    Assoc(2, b, x);
    if x > 0 {
      MulMono(2, b, x);
    }
  }

  lemma NegatedTwice(w: int, b: nat, x: int, d: nat, d': nat)
    requires 2 * w * d' == 2 * b * x * d
    ensures 2 * (0 - w) * d' == 2 * b * (0 - x) * d
  {
    Assoc(2 * b, x, d);
    Assoc(2 * b, 0 - x, d);
  }

  lemma ShorterTried(f: nat, g: nat, m: nat, e: int, b: nat, p: nat, ee: int)
    requires b > 1 && f == b * g && Tried(f, m, e, b, p, ee) && p >= 1
    ensures Tried(g, m, e, b, p - 1, ee)
  {
    hide Pow, Over, Tried, IsRound;
    TriedRatio(f, m, e, b, p, ee);
    NextExponent(b, p - ee, e - 53);
    OverPositive(b, p - 1 - ee, e - 53);
    RoundShorter(f, g, m, Over(b, p - ee, e - 53), Under(b, p - ee, e - 53),
                 Over(b, p - 1 - ee, e - 53), Under(b, p - 1 - ee, e - 53), b);
    RatioTried(g, m, e, b, p - 1, ee);
  }

  /** Dropping a trailing zero digit leaves the candidate for one digit less. */
  lemma ShorterCandidate(f: nat, g: nat, m: nat, e: int, b: nat, p: nat, e0: int, ee: int)
    requires b > 1 && f == b * g && p >= 1 && TWO52 <= m < TWO53 && Bracket(b, e0, e) && Candidate(f, m, e, b, p, e0, ee)
    ensures Candidate(g, m, e, b, p - 1, e0, ee)
  {
    hide Pow, Tried, Bracket;
    ShorterTried(f, g, m, e, b, p, ee);
    PowSucc(b, p - 1);
    if g >= Pow(b, p - 1) {
      MulMono(Pow(b, p - 1), g, b);
    }
    if ee != e0 {
      var f0: nat :| Tried(f0, m, e, b, p, e0) && f0 >= Pow(b, p);
      TryNext(f0, f, m, e, b, p, e0);
      SameTry(f, m, e, b, p, e0);
    }
  }

  lemma SameTry(f: nat, m: nat, e: int, b: nat, p: nat, e0: int)
    requires p >= 1 && Tried(f, m, e, b, p, e0 + 1)
    ensures Tried(f, m, e, b, p - 1, e0)
  {
    hide Pow, RoundsTo;
    assert p - (e0 + 1) == p - 1 - e0 && e0 + 1 - p == e0 - (p - 1);
  }

  /** Dropping a trailing zero digit does not change the number. */
  lemma DropDigit(mant: nat, p: int, ee: int, m: nat, e: int, b: nat)
    requires b > 1 && mant % b == 0
    ensures mant / b >= 0 && (ConvertsBack(mant / b, p - 1, ee, m, e, b) <==> ConvertsBack(mant, p, ee, m, e, b))
  {
    hide Pow, IsDouble;
    DivIs(mant, b);
    DivNonneg(mant, b);
    PowPositive(b, Up(p - ee));
    PowPositive(b, Up(p - 1 - ee));
    SameDigits(mant / b, p, ee, b, mant);
    SameDouble(m, e, mant * Pow(b, Up(ee - p)), Pow(b, Up(p - ee)),
               mant / b * Pow(b, Up(ee - (p - 1))), Pow(b, Up(p - 1 - ee)));
  }

  lemma SameDouble(m: nat, e: int, x: nat, y: nat, x': nat, y': nat)
    requires y > 0 && y' > 0 && x * y' == x' * y
    ensures IsDouble(m, e, x, y, NearestEven) <==> IsDouble(m, e, x', y', NearestEven)
  {
    hide IsDouble;
    if IsDouble(m, e, x, y, NearestEven) {
      IsDoubleRatio(m, e, x, y, x', y', NearestEven);
    }
    if IsDouble(m, e, x', y', NearestEven) {
      IsDoubleRatio(m, e, x', y', x, y, NearestEven);
    }
  }

  lemma SameDigits(rest: nat, p: int, ee: int, b: nat, mant: nat)
    requires mant == rest * b
    ensures mant * Pow(b, Up(ee - p)) * Pow(b, Up(p - 1 - ee)) == rest * Pow(b, Up(ee - (p - 1))) * Pow(b, Up(p - ee))
  {
    hide Pow;
    PowOne(b);
    if ee - p >= 0 {
      PowAdd(b, 1, ee - p);
      Assoc(rest, b, Pow(b, ee - p));
      assert ee - (p - 1) == 1 + (ee - p) && Up(p - 1 - ee) == 0 && Up(p - ee) == 0;
    } else {
      PowAdd(b, 1, p - 1 - ee);
      Assoc(rest, b, Pow(b, p - 1 - ee));
      assert p - ee == 1 + (p - 1 - ee) && Up(ee - p) == 0 && Up(ee - (p - 1)) == 0;
    }
  }
}

module FreeFormatLoop {
  import opened Arithmetic
  import opened Limbs
  import opened Rounding
  import opened Powers
  import opened Bignums
  import opened PowerScaling
  import opened Binary64
  import opened FreeFormatFacts
  import opened FreeFormatSearch

  /** The first try, at the largest number of digits, converts back. */
  lemma FirstFound(f0: nat, f: nat, m: nat, e: int, b: nat, p: nat, e0: int, ee: int)
    requires b > 1 && p >= 1 && Canonical(m, e) && Bracket(b, e0, e) && Pow(b, p - 1) >= TWO53
    requires Tried(f0, m, e, b, p, e0) && Tried(f, m, e, b, p, ee)
    requires (ee == e0 && f == f0) || (ee == e0 + 1 && f0 >= Pow(b, p))
    ensures ConvertsBack(f, p, ee, m, e, b)
  {
    hide Pow, Over, Tried, Bracket, IsRound, IsDouble, Close;
    var n, d := Over(b, p - e0, e - 53), Under(b, p - e0, e - 53);
    var n', d' := Over(b, p - ee, e - 53), Under(b, p - ee, e - 53);
    PowPositive(2, Spare(e));
    TriedRatio(f0, m, e, b, p, e0);
    TriedRatio(f, m, e, b, p, ee);
    BracketLow(b, e0, e, p);
    BracketHigh(b, e0, e, p);
    FirstTry(f0, m, n, d, Pow(b, p - 1));
    if ee == e0 + 1 {
      NextExponent(b, p - e0, e - 53);
      PowSucc(b, p - 1);
      TryNext(f0, f, m, e, b, p, e0);
      SecondTry(f0, f, m, n, d, n', d', b, Pow(b, p - 1), Pow(b, p));
    }
    PrintedRatio(f, b, p, ee, e);
    CloseRounds(m, e, f * Pow(b, Up(ee - p)), Pow(b, Up(p - ee)));
  }

  lemma PrintedRatio(f: nat, b: nat, p: nat, ee: int, e: int)
    requires b > 0
    ensures Scale(f * Pow(b, Up(ee - p)), 53 - e) == f * Under(b, p - ee, e - 53)
    ensures Scale(Pow(b, Up(p - ee)), e - 53) == Over(b, p - ee, e - 53) && Pow(b, Up(p - ee)) > 0
  {
    hide Pow;
    Assoc(f, Pow(b, Up(ee - p)), Pow(2, Up(53 - e)));
    PowPositive(b, Up(p - ee));
    assert -(p - ee) == ee - p && -(e - 53) == 53 - e;
  }

  /** The buffer is long enough for every try. */
  predicate Roomy(capacity: nat, radix1: nat, rs: nat, e: int, e0: int, digits: nat)
    requires 1 <= radix1 <= 36
  {
    forall p: nat, ee: int | 1 <= p <= digits && e0 <= ee <= e0 + 1 :: RoomFor(capacity, radix1, rs, e, p, ee)
  }

  predicate RoomFor(capacity: nat, radix1: nat, rs: nat, e: int, p: nat, ee: int)
    requires 1 <= radix1 <= 36
  {
    2 + MulPowRoundRoom(radix1, rs, p - ee, e - 53) <= capacity && 4 + MulPowRoom(radix1, rs, ee - p, false, 55) <= capacity
  }

  predicate Radix(radix: nat, radix1: nat, rs: nat)
  {
    2 <= radix <= 36 && OddPart(radix1) && radix == radix1 * Pow(2, rs)
  }

  lemma DigitsFit64(radix: nat, p: nat)
    requires 2 <= radix <= 36 && p <= MaxDigits(radix)
    ensures 0 < Pow(radix, p) && 2 * Pow(radix, p) < TWO64
  {
    hide Pow;
    EnoughDigits(radix);
    PowPositive(radix, p);
    PowMonotone(radix, p, MaxDigits(radix));
  }

  /** The mantissa of `p` digits: computed for `E0`, and once more if it overflows. */
  method Mantissa(tmp1: Bignum, m: nat, e: int, radix: Limb, radix1: Limb, rs: nat, e0: int, p: nat)
    returns (mant: nat, ee: int, ghost f0: nat)
    requires Radix(radix, radix1, rs) && Canonical(m, e) && Bracket(radix, e0, e) && 1 <= p <= MaxDigits(radix)
    requires Roomy(tmp1.tab.Length, radix1, rs, e, e0, p)
    modifies tmp1`len, tmp1.tab
    ensures Tried(f0, m, e, radix, p, e0) && Tried(mant, m, e, radix, p, ee)
    ensures (ee == e0 && mant == f0) || (ee == e0 + 1 && f0 >= Pow(radix, p))
    ensures 0 < Pow(radix, p - 1) <= mant < Pow(radix, p) && Candidate(mant, m, e, radix, p, e0, ee)
  {
    hide Pow, Bracket, Tried, MulPowRoundRoom, MulPowRoom, Canonical;
    DigitsFit64(radix, p);
    CanonicalSize(m, e);
    var mantMax1 := PowUi(radix, p);
    DivUnique(Pow(radix, p), TWO64, 0, Pow(radix, p));
    PowPositive(radix, p - 1);
    ee := e0;
    f0 := 0;
    while true
      invariant ee == e0 || (ee == e0 + 1 && Tried(f0, m, e, radix, p, e0) && f0 >= Pow(radix, p))
      decreases e0 + 1 - ee
    {
      assert RoomFor(tmp1.tab.Length, radix1, rs, e, p, ee);
      MulPowRound(tmp1, m, e - 53, radix1, rs, p - ee, NearestEven);
      ghost var f := tmp1.Num();
      TriedThis(f, m, e, radix, p, ee);
      mant := tmp1.GetU64();
      if ee == e0 {
        f0 := f;
        TryAtE0(f, m, e, radix, p, e0);
      } else {
        TryNext(f0, f, m, e, radix, p, e0);
      }
      if mant < mantMax1 {
        return;
      }
      ee := ee + 1;
    }
  }

  lemma TriedThis(f: nat, m: nat, e: int, radix: nat, p: nat, ee: int)
    requires RoundsTo(f, m * Pow(radix, Up(p - ee)), Pow(radix, Up(-(p - ee))), e - 53, NearestEven)
    ensures Tried(f, m, e, radix, p, ee)
  {
    hide Pow, RoundsTo;
    assert -(p - ee) == ee - p;
  }

  /** Removes the trailing zero digits: every count passed on the way has the same number as its candidate. */
  method Strip(mant0: nat, p0: nat, ghost ee: int, ghost m: nat, ghost e: int, radix: nat, ghost e0: int) returns (mant: nat, p: nat)
    requires radix > 1 && p0 >= 1 && 0 < Pow(radix, p0 - 1) <= mant0 < Pow(radix, p0)
    requires TWO52 <= m < TWO53 && Bracket(radix, e0, e) && Candidate(mant0, m, e, radix, p0, e0, ee)
    ensures 1 <= p <= p0 && 0 < Pow(radix, p - 1) <= mant < Pow(radix, p) && mant % radix != 0
    ensures Candidate(mant, m, e, radix, p, e0, ee)
    ensures ConvertsBack(mant0, p0, ee, m, e, radix) <==> ConvertsBack(mant, p, ee, m, e, radix)
    ensures Works(p0, m, e, radix, e0) ==> AllWork(p, p0, m, e, radix, e0)
    ensures !Works(p0, m, e, radix, e0) ==> !ConvertsBack(mant, p, ee, m, e, radix)
    ensures mant * Pow(radix, p0 - p) == mant0
  {
    hide Pow, ConvertsBack, Candidate, Works, AllWork, Bracket;
    mant, p := mant0, p0;
    PowOne(radix);
    WorksIs(mant, m, e, radix, p, e0, ee);
    OneWorks(p, m, e, radix, e0);
    while mant % radix == 0
      invariant 1 <= p <= p0 && 0 < Pow(radix, p - 1) <= mant < Pow(radix, p) && mant * Pow(radix, p0 - p) == mant0
      invariant Candidate(mant, m, e, radix, p, e0, ee)
      invariant ConvertsBack(mant0, p0, ee, m, e, radix) <==> ConvertsBack(mant, p, ee, m, e, radix)
      invariant ConvertsBack(mant, p, ee, m, e, radix) ==> AllWork(p, p0, m, e, radix, e0)
      decreases mant
    {
      ShorterMantissa(mant, p, radix);
      PowSucc(radix, p0 - p);
      Assoc(mant / radix, radix, Pow(radix, p0 - p));
      DropDigit(mant, p, ee, m, e, radix);
      ShorterCandidate(mant, mant / radix, m, e, radix, p, e0, ee);
      WorksIs(mant / radix, m, e, radix, p - 1, e0, ee);
      MoreWork(p - 1, p0, m, e, radix, e0);
      mant := mant / radix;
      p := p - 1;
    }
  }

  lemma ShorterMantissa(mant: nat, p: nat, radix: nat)
    requires radix > 1 && p >= 1 && 0 < Pow(radix, p - 1) <= mant < Pow(radix, p) && mant % radix == 0
    ensures mant == mant / radix * radix && 0 < mant / radix < mant
    ensures p >= 2 && 0 < Pow(radix, p - 2) <= mant / radix < Pow(radix, p - 1)
  {
    hide Pow;
    PowOne(radix);
    PowSucc(radix, p - 1);
    DivIs(mant, radix);
    var q := mant / radix;
    DivNonneg(mant, radix);
    Assoc(radix, Pow(radix, p - 1), 1);
    MulCancel(q, Pow(radix, p - 1), radix);
    MulMono(2, radix, q);
    if p == 1 {
      MulMono(1, q, radix);
    } else {
      PowSucc(radix, p - 2);
      PowPositive(radix, p - 2);
      Assoc(radix, Pow(radix, p - 2), 1);
      MulCancel(Pow(radix, p - 2), q, radix);
    }
  }

  /** The free-format loop of js_dtoa: it searches downwards for as long as the digits convert back. */
  method FreeFormat(tmp1: Bignum, m: nat, e: int, radix: Limb, radix1: Limb, rs: nat, e0: int) returns (mant: nat, p: nat, ee: int)
    requires Radix(radix, radix1, rs) && Canonical(m, e) && Bracket(radix, e0, e)
    requires Roomy(tmp1.tab.Length, radix1, rs, e, e0, MaxDigits(radix))
    modifies tmp1`len, tmp1.tab
    ensures SearchResult(mant, p, ee, m, e, radix, e0, MaxDigits(radix))
    ensures 1 <= p <= MaxDigits(radix) && 0 < Pow(radix, p - 1) <= mant < Pow(radix, p) && mant % radix != 0
    ensures e0 <= ee <= e0 + 1
  {
    hide Pow, Bracket, Tried, ConvertsBack, MulPowRoundRoom, MulPowRoom, Canonical, Candidate, Works, AllWork;
    var pMax := MaxDigits(radix);
    EnoughDigits(radix);
    CanonicalSize(m, e);
    var eFound: int, pFound: nat, mantFound: nat := 0, 0, 0;
    var pTry := pMax;
    while true
      invariant 1 <= pTry <= pMax && (pFound == 0 ==> pTry == pMax)
      invariant pFound > 0 ==> pFound == pTry + 1 && Promising(mantFound, pFound, eFound, m, e, radix, e0, pMax)
      decreases pTry
    {
      ghost var f0;
      mant, ee, f0 := Mantissa(tmp1, m, e, radix, radix1, rs, e0, pTry);
      if pFound == 0 {
        FirstFound(f0, mant, m, e, radix, pTry, e0, ee);
      }
      WorksIs(mant, m, e, radix, pTry, e0, ee);
      mant, p := Strip(mant, pTry, ee, m, e, radix, e0);
      if pFound != 0 {
        var back := Back(tmp1, mant, p, ee, m, e, radix, radix1, rs, e0);
        if !back {
          break;
        }
        JoinWork(p, pTry, pMax, m, e, radix, e0);
      }
      pFound, eFound, mantFound := p, ee, mant;
      if p == 1 {
        break;
      }
      pTry := p - 1;
    }
    mant, p, ee := mantFound, pFound, eFound;
  }

  /** Digits that convert back, as do those of every larger count. */
  ghost predicate Promising(mant: nat, p: nat, ee: int, m: nat, e: int, radix: nat, e0: int, pMax: nat)
  {
    Candidate(mant, m, e, radix, p, e0, ee) && ConvertsBack(mant, p, ee, m, e, radix) && AllWork(p, pMax, m, e, radix, e0) &&
    1 <= p <= pMax && 0 < Pow(radix, p - 1) <= mant < Pow(radix, p) && mant % radix != 0 && e0 <= ee <= e0 + 1
  }

  /** Converts back to binary and compares. */
  method Back(tmp1: Bignum, mant: nat, p: nat, ee: int, m: nat, e: int, radix: Limb, radix1: Limb, rs: nat, ghost e0: int)
    returns (same: bool)
    requires Radix(radix, radix1, rs) && 0 < mant < Pow(radix, p) && 1 <= p <= MaxDigits(radix) && e0 <= ee <= e0 + 1 && m > 0
    requires Roomy(tmp1.tab.Length, radix1, rs, e, e0, MaxDigits(radix))
    modifies tmp1`len, tmp1.tab
    ensures same <==> ConvertsBack(mant, p, ee, m, e, radix)
  {
    hide Pow, MulPowRoundRoom, MulPowRoom, IsDouble;
    DigitsFit64(radix, p);
    assert RoomFor(tmp1.tab.Length, radix1, rs, e, p, ee);
    tmp1.SetU64(mant);
    var m1, e1 := MulPowRoundToD(tmp1, radix1, rs, ee - p, NearestEven);
    same := m1 == m && e1 == e;
    assert -(ee - p) == p - ee;
    PowPositive(radix, Up(p - ee));
    OnlyDouble(m1, e1, m, e, mant * Pow(radix, Up(ee - p)), Pow(radix, Up(p - ee)));
  }

  lemma OnlyDouble(m1: nat, e1: int, m: nat, e: int, x: nat, y: nat)
    requires m > 0 && y > 0 && IsDouble(m1, e1, x, y, NearestEven)
    ensures IsDouble(m, e, x, y, NearestEven) <==> m1 == m && e1 == e
  {
    hide IsDouble;
    if IsDouble(m, e, x, y, NearestEven) {
      DoubleUnique(m1, e1, m, e, x, y, NearestEven);
    }
  }
}
