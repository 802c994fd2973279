// Powers, division, and products: the facts about integers that the bignum code rests on.
module Arithmetic {
  function Pow(b: nat, n: nat): nat
  {
    if n == 0 then 1 else b * Pow(b, n - 1)
  }

  lemma PowSucc(b: nat, n: nat)
    ensures Pow(b, n + 1) == b * Pow(b, n)
  {
  }

  lemma PowOne(a: nat)
    ensures Pow(a, 1) == a && Pow(a, 0) == 1
  {
    assert Pow(a, 1) == a * Pow(a, 0);
  }

  lemma {:induction false} PowPositive(b: nat, n: nat)
    requires b > 0
    ensures Pow(b, n) > 0
  {
    if n > 0 {
      PowPositive(b, n - 1);
    }
  }

  lemma {:induction false} PowAdd(b: nat, m: nat, n: nat)
    ensures Pow(b, m + n) == Pow(b, m) * Pow(b, n)
  {
    if m > 0 {
      PowAdd(b, m - 1, n);
      Assoc(b, Pow(b, m - 1), Pow(b, n));
    }
  }

  lemma {:induction false} PowMul(b: nat, m: nat, n: nat)
    ensures Pow(Pow(b, m), n) == Pow(b, m * n)
  {
    if n > 0 {
      PowMul(b, m, n - 1);
      PowAdd(b, m, m * (n - 1));
      Distrib(m, n - 1, 1);
    } else {
      assert m * n == 0;
    }
  }

  lemma {:induction false} PowProduct(a: nat, b: nat, n: nat)
    ensures Pow(a * b, n) == Pow(a, n) * Pow(b, n)
  {
    if n > 0 {
      var x, y := Pow(a, n - 1), Pow(b, n - 1);
      PowProduct(a, b, n - 1);
      Interchange(a, b, x, y);
    }
  }

  lemma {:induction false} PowMonotone(b: nat, m: nat, n: nat)
    requires b > 0 && m <= n
    ensures Pow(b, m) <= Pow(b, n)
  {
    PowPositive(b, n - m);
    PowPositive(b, m);
    PowAdd(b, m, n - m);
    MulAtLeast(Pow(b, m), Pow(b, n - m));
  }

  lemma {:induction false} PowStrict(b: nat, m: nat, n: nat)
    requires b > 1 && m < n
    ensures Pow(b, m) < Pow(b, n)
  {
    PowMonotone(b, m, n - 1);
    PowPositive(b, n - 1);
    MulLess(Pow(b, n - 1), 1, b);
  }

  lemma {:induction false} PowBaseMonotone(a: nat, b: nat, n: nat)
    requires a <= b
    ensures Pow(a, n) <= Pow(b, n)
  {
    if n > 0 {
      PowBaseMonotone(a, b, n - 1);
      MulMono(a, b, Pow(a, n - 1));
      MulMono(Pow(a, n - 1), Pow(b, n - 1), b);
    }
  }

  lemma Interchange(a: int, b: int, x: int, y: int)
    ensures a * b * (x * y) == a * x * (b * y)
  {
    Assoc(a, b, x * y);
    Assoc(b, x, y);
    Assoc(x, b, y);
    Assoc(a, x, b * y);
  }

  lemma Assoc(a: int, b: int, c: int)
    ensures a * b * c == a * (b * c) && b * a == a * b
  {
  }

  lemma Distrib(a: int, b: int, c: int)
    ensures a * (b + c) == a * b + a * c && (b + c) * a == b * a + c * a && a * (b - c) == a * b - a * c
  {
  }

  lemma MulAtLeast(a: int, b: int)
    requires a >= 0 && b >= 1
    ensures a * b >= a
  {
    Distrib(a, b - 1, 1);
    MulNonneg(a, b - 1);
  }

  lemma MulNonneg(a: int, b: int)
    requires a >= 0 && b >= 0
    ensures a * b >= 0
  {
  }

  lemma MulMono(a: int, b: int, c: int)
    requires a <= b && c >= 0
    ensures a * c <= b * c && c * a <= c * b
  {
    MulNonneg(b - a, c);
    Distrib(c, b, a);
    Assoc(c, a, 1);
    Assoc(c, b, 1);
  }

  lemma MulLess(c: int, a: int, b: int)
    requires a < b && c > 0
    ensures a * c < b * c && c * a < c * b
  {
    MulMono(a + 1, b, c);
    Distrib(c, a, 1);
  }

  lemma MulCancel(a: int, b: int, c: int)
    requires c > 0
    ensures a * c <= b * c ==> a <= b
    ensures a * c < b * c ==> a < b
    ensures a * c == b * c ==> a == b
  {
    if a < b {
      MulLess(c, a, b);
    } else if b < a {
      MulLess(c, b, a);
    }
  }

  /** Quotient and remainder are determined by the division equation. */
  lemma DivUnique(n: int, d: int, q: int, r: int)
    requires n == q * d + r && 0 <= r < d
    ensures n / d == q && n % d == r
  {
    var q', r' := n / d, n % d;
    assert n == q' * d + r' by {
      DivIs(n, d);
    }
    if q < q' {
      MulMono(q + 1, q', d);
      Distrib(d, q, 1);
    } else if q' < q {
      MulMono(q' + 1, q, d);
      Distrib(d, q', 1);
    }
  }

  lemma DivIs(n: int, d: int)
    requires d > 0
    ensures n == (n / d) * d + n % d && n == d * (n / d) + n % d && 0 <= n % d < d
  {
    Assoc(n / d, d, 1);
  }

  lemma DivNonneg(n: int, d: int)
    requires d > 0 && n >= 0
    ensures n / d >= 0
  {
  }

  /** Two floor divisions are one, and the whole is exact when both are. */
  lemma DivDiv(n: nat, a: nat, b: nat)
    requires a > 0 && b > 0
    ensures a * b > 0 && n / a / b == n / (a * b)
    ensures n % (a * b) == 0 <==> n % a == 0 && (n / a) % b == 0
  {
    MulLess(a, 0, b);
    var q, r := n / a, n % a;
    var q', r' := q / b, q % b;
    DivIs(n, a);
    DivIs(q, b);
    Distrib(a, q' * b, r');
    Assoc(q', b, a);
    Assoc(a, q' * b, 1);
    Assoc(a, b, 1);
    MulMono(r', b - 1, a);
    Distrib(a, b, 1);
    MulNonneg(a, r');
    assert n == q' * (a * b) + (a * r' + r);
    DivUnique(n, a * b, q', a * r' + r);
    if r' > 0 {
      MulAtLeast(a, r');
    }
  }

  lemma DivMono(m: int, n: int, d: int)
    requires d > 0 && m <= n
    ensures m / d <= n / d
  {
    DivIs(m, d);
    DivIs(n, d);
    if n / d < m / d {
      MulMono(n / d + 1, m / d, d);
      Distrib(d, n / d, 1);
    }
  }
}
