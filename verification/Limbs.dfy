// The mp_* primitives of dtoa.c: arithmetic on little-endian arrays of 32-bit limbs, in place.
module Limbs {
  import opened Arithmetic

  const LIMB_BITS := 32
  const BASE := 0x1_0000_0000

  type Limb = x: int | 0 <= x < BASE

  /** The number that a limb array stands for. */
  function Value(s: seq<Limb>): nat
  {
    if s == [] then 0 else s[0] + BASE * Value(s[1..])
  }

  lemma BaseIsPow()
    ensures Pow(2, 32) == BASE
  {
    assert Pow(2, 8) == 256;
    PowAdd(2, 8, 8);
    PowAdd(2, 16, 16);
  }

  lemma SplitBase(s: nat)
    requires s <= 32
    ensures Pow(2, s) * Pow(2, 32 - s) == BASE && Pow(2, s) > 0 && Pow(2, 32 - s) > 0
  {
    BaseIsPow();
    PowAdd(2, s, 32 - s);
    PowPositive(2, s);
    PowPositive(2, 32 - s);
  }

  lemma {:induction false} ValueAppend(s: seq<Limb>, t: seq<Limb>)
    ensures Value(s + t) == Value(s) + Pow(BASE, |s|) * Value(t)
  {
    if s == [] {
      assert s + t == t;
    } else {
      assert (s + t)[1..] == s[1..] + t;
      ValueAppend(s[1..], t);
      Distrib(BASE, Value(s[1..]), Pow(BASE, |s| - 1) * Value(t));
      Assoc(BASE, Pow(BASE, |s| - 1), Value(t));
    }
  }

  lemma ValueOne(x: Limb)
    ensures Value([x]) == x
  {
    assert [x][1..] == [];
  }

  lemma ValueCons(x: Limb, s: seq<Limb>)
    ensures Value([x] + s) == x + BASE * Value(s)
  {
    assert ([x] + s)[1..] == s;
  }

  lemma ValueSnoc(s: seq<Limb>, x: Limb)
    ensures Value(s + [x]) == Value(s) + Pow(BASE, |s|) * x
  {
    ValueAppend(s, [x]);
    ValueOne(x);
  }

  lemma {:induction false} ValueBound(s: seq<Limb>)
    ensures Value(s) < Pow(BASE, |s|)
  {
    if s != [] {
      ValueBound(s[1..]);
      MulMono(Value(s[1..]) + 1, Pow(BASE, |s| - 1), BASE);
      Distrib(BASE, Value(s[1..]), 1);
    }
  }

  /** One limb of a pass from the low end. */
  lemma LowStep(s: seq<Limb>, t: seq<Limb>, x: Limb, y: Limb, b: int, l0: int, l: int, m: int)
    requires |s| == |t| && Value(t) + l * Pow(BASE, |s|) == Value(s) * b + l0
    requires x * b + l == m * BASE + y
    ensures Value(t + [y]) + m * Pow(BASE, |s| + 1) == Value(s + [x]) * b + l0
  {
    hide Value, Pow;
    ValueSnoc(s, x);
    ValueSnoc(t, y);
    PowSucc(BASE, |s|);
    LowArithmetic(Value(s), Value(t), Pow(BASE, |s|), x, y, b, l0, l, m, Value(s + [x]), Value(t + [y]), Pow(BASE, |s| + 1));
  }

  lemma LowArithmetic(v: int, w: int, p: int, x: int, y: int, b: int, l0: int, l: int, m: int, v': int, w': int, p': int)
    requires w + l * p == v * b + l0 && x * b + l == m * BASE + y
    requires v' == v + p * x && w' == w + p * y && p' == BASE * p
    ensures w' + m * p' == v' * b + l0
  {
    Distrib(b, v, p * x);
    Distrib(p, x * b, l);
    Distrib(p, m * BASE, y);
    Assoc(p, x, b);
    Assoc(m, BASE, p);
    Assoc(p, m * BASE, 1);
    Assoc(p, l, 1);
  }

  /** One limb of a pass from the high end. */
  lemma HighStep(s: seq<Limb>, t: seq<Limb>, x: Limb, y: Limb, b: int, r0: int, r: int, m: int)
    requires |s| == |t| && Value(s) + r0 * Pow(BASE, |s|) == Value(t) * b + r
    requires r * BASE + x == y * b + m
    ensures Value([x] + s) + r0 * Pow(BASE, |s| + 1) == Value([y] + t) * b + m
  {
    hide Value;
    var p := Pow(BASE, |s|);
    ValueCons(x, s);
    ValueCons(y, t);
    Distrib(BASE, Value(s), r0 * p);
    Distrib(BASE, Value(t) * b, r);
    Distrib(b, y, BASE * Value(t));
    Assoc(BASE, Value(t), b);
    Assoc(BASE, r0, p);
    Assoc(r0, BASE, p);
  }

  lemma Grow(tab: seq<Limb>, i: nat)
    requires i < |tab|
    ensures tab[..i + 1] == tab[..i] + [tab[i]]
  {
  }

  lemma GrowDown(tab: seq<Limb>, i: nat, n: nat)
    requires i < n <= |tab|
    ensures tab[i..n] == [tab[i]] + tab[i + 1..n]
  {
  }

  /** The limbs from `n` on are those of `was`. */
  predicate SameFrom(was: seq<Limb>, now: seq<Limb>, n: nat)
  {
    |was| == |now| && n <= |was| && was[n..] == now[n..]
  }

  /** Adds a single limb; returns the carry. */
  method MpAddUi(tab: array<Limb>, b: Limb, n: nat) returns (k: Limb)
    requires n <= tab.Length
    modifies tab
    ensures Value(tab[..n]) + k * Pow(BASE, n) == Value(old(tab[..n])) + b
    ensures SameFrom(old(tab[..]), tab[..], n)
  {
    hide Value, Pow;
    k := b;
    var i := 0;
    EmptyStart(old(tab[..]), tab[..], 1, b);
    while i < n
      invariant 0 <= i <= n && tab[i..] == old(tab[i..])
      invariant Value(tab[..i]) + k * Pow(BASE, i) == Value(old(tab[..i])) * 1 + b
    {
      if k == 0 {
        SameTail(old(tab[..]), tab[..], i, n);
        AddTail(old(tab[..i]), tab[..i], tab[i..n], b);
        assert tab[..n] == tab[..i] + tab[i..n];
        return;
      }
      var x := tab[i];
      var a := (x + k) % BASE;
      var k' := if a < k then 1 else 0;
      AddLimb(x, k);
      ghost var before := tab[..i];
      LowStep(old(tab[..i]), before, x, a, 1, b, k, k');
      Grow(old(tab[..]), i);
      k := k';
      tab[i] := a;
      assert tab[..i] == before;
      Grow(tab[..], i);
      i := i + 1;
    }
  }

  lemma EmptyStart(s: seq<Limb>, t: seq<Limb>, b: int, l: int)
    ensures Value(t[..0]) + l * Pow(BASE, 0) == Value(s[..0]) * b + l
  {
  }

  lemma AddTail(s: seq<Limb>, t: seq<Limb>, u: seq<Limb>, b: int)
    requires |s| == |t| && Value(t) + 0 * Pow(BASE, |s|) == Value(s) * 1 + b
    ensures Value(t + u) + 0 * Pow(BASE, |s| + |u|) == Value(s + u) + b
  {
    hide Value;
    ValueAppend(s, u);
    ValueAppend(t, u);
  }

  lemma SameTail(s: seq<Limb>, t: seq<Limb>, i: nat, n: nat)
    requires i <= n <= |s| && |t| == |s| && s[i..] == t[i..]
    ensures t[i..n] == s[i..n] && s[..i] + s[i..n] == s[..n] && s[n..] == t[n..]
  {
    assert s[i..n] == s[i..][..n - i];
    assert t[i..n] == t[i..][..n - i];
    assert s[n..] == s[i..][n - i..];
    assert t[n..] == t[i..][n - i..];
  }

  lemma AddLimb(x: Limb, k: Limb)
    requires k > 0
    ensures var a := (x + k) % BASE; x * 1 + k == (if a < k then 1 else 0) * BASE + a
  {
  }

  /** Multiplies by one limb and adds another; returns the high limb. */
  method MpMul1(tab: array<Limb>, n: nat, b: Limb, l0: Limb) returns (l: Limb)
    requires n <= tab.Length
    modifies tab
    ensures Value(tab[..n]) + l * Pow(BASE, n) == Value(old(tab[..n])) * b + l0
    ensures SameFrom(old(tab[..]), tab[..], n)
  {
    hide Value, Pow;
    l := l0;
    var i := 0;
    EmptyStart(old(tab[..]), tab[..], b, l0);
    while i < n
      invariant 0 <= i <= n && tab[i..] == old(tab[i..])
      invariant Value(tab[..i]) + l * Pow(BASE, i) == Value(old(tab[..i])) * b + l0
    {
      var x := tab[i];
      var t := x * b + l;
      MulLimb(x, b, l);
      ghost var before := tab[..i];
      LowStep(old(tab[..i]), before, x, t % BASE, b, l0, l, t / BASE);
      Grow(old(tab[..]), i);
      l := t / BASE;
      tab[i] := t % BASE;
      assert tab[..i] == before;
      Grow(tab[..], i);
      i := i + 1;
    }
  }

  lemma MulLimb(x: Limb, b: Limb, l: Limb)
    ensures var t := x * b + l; 0 <= t / BASE < BASE && t == (t / BASE) * BASE + t % BASE
  {
    MulMono(x, BASE - 1, b);
    MulNonneg(x, b);
    DivIs(x * b + l, BASE);
  }

  /** Divides by one limb, with `r0` in front; returns the remainder. */
  method MpDiv1(tab: array<Limb>, n: nat, b: Limb, r0: Limb) returns (r: Limb)
    requires n <= tab.Length && r0 < b
    modifies tab
    ensures Value(old(tab[..n])) + r0 * Pow(BASE, n) == Value(tab[..n]) * b + r && r < b
    ensures SameFrom(old(tab[..]), tab[..], n)
  {
    hide Value, Pow;
    r := r0;
    var i := n;
    FullStart(old(tab[..]), tab[..], n, b, r0);
    while i > 0
      invariant 0 <= i <= n && tab[..i] == old(tab[..i]) && tab[n..] == old(tab[n..]) && r < b
      invariant Value(old(tab[i..n])) + r0 * Pow(BASE, n - i) == Value(tab[i..n]) * b + r
    {
      i := i - 1;
      assert tab[i] == old(tab[..i + 1])[i];
      var a1 := r * BASE + tab[i];
      DivLimb(r, tab[i], b);
      ghost var after := tab[i + 1..n];
      HighStep(old(tab[i + 1..n]), after, tab[i], a1 / b, b, r0, r, a1 % b);
      GrowDown(old(tab[..]), i, n);
      tab[i] := a1 / b;
      r := a1 % b;
      assert tab[i + 1..n] == after;
      GrowDown(tab[..], i, n);
    }
    WholeRange(old(tab[..]), tab[..], n);
  }

  lemma FullStart(s: seq<Limb>, t: seq<Limb>, n: nat, b: int, r: int)
    requires n <= |s| == |t|
    ensures Value(s[n..n]) + r * Pow(BASE, n - n) == Value(t[n..n]) * b + r
  {
    assert s[n..n] == [] && t[n..n] == [];
  }

  lemma WholeRange(s: seq<Limb>, t: seq<Limb>, n: nat)
    requires n <= |s| == |t|
    ensures s[0..n] == s[..n] && t[0..n] == t[..n]
  {
  }

  lemma DivLimb(r: Limb, x: Limb, b: Limb)
    requires r < b
    ensures var a1 := r * BASE + x; 0 <= a1 / b < BASE && a1 == (a1 / b) * b + a1 % b && 0 <= a1 % b < b
  {
    var a1 := r * BASE + x;
    DivIs(a1, b);
    DivNonneg(a1, b);
    MulMono(r + 1, b, BASE);
    if a1 / b >= BASE {
      MulMono(BASE, a1 / b, b);
    }
  }

  /** Shifts right by less than a limb, with `high` in front; returns the bits shifted out. */
  method MpShr(tab: array<Limb>, n: nat, shift: nat, high: Limb) returns (r: Limb)
    requires n <= tab.Length && 1 <= shift < LIMB_BITS && high < Pow(2, shift)
    modifies tab
    ensures Value(old(tab[..n])) + high * Pow(BASE, n) == Value(tab[..n]) * Pow(2, shift) + r && r < Pow(2, shift)
    ensures SameFrom(old(tab[..]), tab[..], n)
  {
    hide Value, Pow;
    var l: Limb := high;
    var i := n;
    ghost var p, q := Pow(2, shift), Pow(2, LIMB_BITS - shift);
    SplitBase(shift);
    DivUnique(high, p, 0, high);
    FullStart(old(tab[..]), tab[..], n, p, high);
    while i > 0
      invariant 0 <= i <= n && tab[..i] == old(tab[..i]) && tab[n..] == old(tab[n..])
      invariant Value(old(tab[i..n])) + high * Pow(BASE, n - i) == Value(tab[i..n]) * p + l % p
    {
      i := i - 1;
      assert tab[i] == old(tab[..i + 1])[i];
      var a := tab[i];
      ShrLimb(l, a, shift);
      ghost var after := tab[i + 1..n];
      var y := a / Pow(2, shift) + l * Pow(2, LIMB_BITS - shift) % BASE;
      HighStep(old(tab[i + 1..n]), after, a, y, p, high, l % p, a % p);
      GrowDown(old(tab[..]), i, n);
      tab[i] := y;
      l := a;
      assert tab[i + 1..n] == after;
      GrowDown(tab[..], i, n);
    }
    WholeRange(old(tab[..]), tab[..], n);
    RemLimb(l, p);
    r := l % Pow(2, shift);
  }

  lemma RemLimb(l: Limb, p: nat)
    requires p > 0
    ensures 0 <= l % p < BASE && l % p < p
  {
    DivIs(l, p);
    DivNonneg(l, p);
    MulNonneg(l / p, p);
  }

  /** The two parts of a shifted limb occupy disjoint bits. */
  lemma ShrLimb(l: Limb, a: Limb, shift: nat)
    requires shift <= 32
    ensures var p, q := Pow(2, shift), Pow(2, 32 - shift);
            p > 0 && q > 0 &&
            var y := a / p + l * q % BASE;
            l * q % BASE == (l % p) * q && 0 <= a / p < q && 0 <= y < BASE && (l % p) * BASE + a == y * p + a % p
  {
    hide Pow;
    var p, q := Pow(2, shift), Pow(2, 32 - shift);
    SplitBase(shift);
    DivIs(l, p);
    DivIs(a, p);
    DivNonneg(a, p);
    MulCancel(q, a / p, p);
    Assoc(l / p, p, q);
    Distrib(q, (l / p) * p, l % p);
    MulMono(l % p + 1, p, q);
    Distrib(q, l % p, 1);
    MulNonneg(l % p, q);
    Assoc(q, (l / p) * p, 1);
    Assoc(q, l % p, 1);
    Assoc(q, l, 1);
    DivUnique(l * q, BASE, l / p, (l % p) * q);
    Distrib(p, a / p, (l % p) * q);
    Assoc(l % p, q, p);
    Assoc(q, p, 1);
  }

  /** Shifts left by less than a limb, with `low` behind; returns the bits shifted out. */
  method MpShl(tab: array<Limb>, n: nat, shift: nat, low: Limb) returns (l: Limb)
    requires n <= tab.Length && 1 <= shift < LIMB_BITS && low < Pow(2, shift)
    modifies tab
    ensures Value(tab[..n]) + l * Pow(BASE, n) == Value(old(tab[..n])) * Pow(2, shift) + low && l < Pow(2, shift)
    ensures SameFrom(old(tab[..]), tab[..], n)
  {
    hide Value, Pow;
    l := low;
    var i := 0;
    ghost var p := Pow(2, shift);
    EmptyStart(old(tab[..]), tab[..], p, low);
    while i < n
      invariant 0 <= i <= n && tab[i..] == old(tab[i..]) && l < p
      invariant Value(tab[..i]) + l * Pow(BASE, i) == Value(old(tab[..i])) * p + low
    {
      var a := tab[i];
      ShlLimb(a, l, shift);
      var y := a * Pow(2, shift) % BASE + l;
      var m := a / Pow(2, LIMB_BITS - shift);
      ghost var before := tab[..i];
      LowStep(old(tab[..i]), before, a, y, p, low, l, m);
      Grow(old(tab[..]), i);
      tab[i] := y;
      l := m;
      assert tab[..i] == before;
      Grow(tab[..], i);
      i := i + 1;
    }
  }

  lemma ShlLimb(a: Limb, l: Limb, shift: nat)
    requires shift <= 32 && l < Pow(2, shift)
    ensures var p, q := Pow(2, shift), Pow(2, 32 - shift);
            var y := a * p % BASE + l;
            q > 0 && 0 <= y < BASE && 0 <= a / q < p && a * p + l == (a / q) * BASE + y && a * p % BASE == (a % q) * p
  {
    hide Pow;
    var p, q := Pow(2, shift), Pow(2, 32 - shift);
    SplitBase(shift);
    DivIs(a, q);
    DivNonneg(a, q);
    MulCancel(p, a / q, q);
    Distrib(p, (a / q) * q, a % q);
    Assoc(a / q, q, p);
    MulMono(a % q + 1, q, p);
    Distrib(p, a % q, 1);
    MulNonneg(a % q, p);
    Assoc(p, (a / q) * q, 1);
    Assoc(p, a % q, 1);
    Assoc(p, a, 1);
    Assoc(q, p, 1);
    DivUnique(a * p, BASE, a / q, (a % q) * p);
  }
}
