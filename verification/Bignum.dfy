// mpb_t: a bignum in a buffer of limbs, and the shift that rounds.
module LimbBits {
  import opened Arithmetic
  import opened Limbs

  lemma ValueSplit(s: seq<Limb>, l: nat)
    requires l <= |s|
    ensures Value(s) == Value(s[..l]) + Pow(BASE, l) * Value(s[l..]) && Value(s[..l]) < Pow(BASE, l)
    ensures Pow(BASE, l) > 0 && Value(s) / Pow(BASE, l) == Value(s[l..]) && Value(s) % Pow(BASE, l) == Value(s[..l])
  {
    hide Value, Pow;
    assert s == s[..l] + s[l..];
    ValueAppend(s[..l], s[l..]);
    ValueBound(s[..l]);
    PowPositive(BASE, l);
    Assoc(Pow(BASE, l), Value(s[l..]), 1);
    DivUnique(Value(s), Pow(BASE, l), Value(s[l..]), Value(s[..l]));
  }

  lemma ValueSmall(s: seq<Limb>, d: nat)
    requires Pow(BASE, |s|) <= d
    ensures d > 0 && Value(s) / d == 0 && Value(s) % d == Value(s)
  {
    hide Value, Pow;
    ValueBound(s);
    DivUnique(Value(s), d, 0, Value(s));
  }

  /** A bit count is a limb count and a rest. */
  lemma BitsAreLimbs(k: nat)
    ensures Pow(2, k) == Pow(BASE, k / 32) * Pow(2, k % 32)
  {
    hide Pow;
    BaseIsPow();
    PowMul(2, 32, k / 32);
    PowAdd(2, 32 * (k / 32), k % 32);
  }

  function Bit(v: nat, k: nat): int
  {
    PowPositive(2, k);
    (v / Pow(2, k)) % 2
  }

  /** mpb_get_bit on the limbs. */
  function LimbBit(s: seq<Limb>, k: nat): int
  {
    PowPositive(2, k % 32);
    if k / 32 >= |s| then 0 else (s[k / 32] / Pow(2, k % 32)) % 2
  }

  lemma LimbBitIsBit(s: seq<Limb>, k: nat)
    ensures LimbBit(s, k) == Bit(Value(s), k)
  {
    hide Value, Pow;
    var l, j := k / 32, k % 32;
    PowPositive(2, k);
    PowPositive(2, j);
    PowPositive(BASE, l);
    BitsAreLimbs(k);
    if l >= |s| {
      PowMonotone(BASE, |s|, l);
      MulAtLeast(Pow(BASE, l), Pow(2, j));
      ValueSmall(s, Pow(2, k));
    } else {
      ValueSplit(s, l);
      DivDiv(Value(s), Pow(BASE, l), Pow(2, j));
      assert s[l..] == [s[l]] + s[l + 1..];
      ValueCons(s[l], s[l + 1..]);
      LowLimb(s[l], Value(s[l + 1..]), j);
    }
  }

  /** A bit of the lowest limb is a bit of the number. */
  lemma LowLimb(x: Limb, rest: nat, j: nat)
    requires j < 32
    ensures Pow(2, j) > 0 && ((x + BASE * rest) / Pow(2, j)) % 2 == (x / Pow(2, j)) % 2
    ensures (x + BASE * rest) % Pow(2, j) == x % Pow(2, j)
  {
    hide Pow;
    var p, q := Pow(2, j), Pow(2, 31 - j);
    PowPositive(2, j);
    SplitBase(j);
    HalfPow(32 - j);
    EvenMultiple(p, q, rest);
    AddEven(x, BASE * rest, p, q * rest);
  }

  lemma AddEven(x: nat, y: nat, p: nat, m: nat)
    requires p > 0 && y == 2 * m * p
    ensures ((x + y) / p) % 2 == (x / p) % 2 && (x + y) % p == x % p
  {
    DivIs(x, p);
    Distrib(p, x / p, 2 * m);
    DivUnique(x + y, p, x / p + 2 * m, x % p);
  }

  lemma EvenMultiple(p: nat, q: nat, rest: nat)
    requires p * (2 * q) == BASE
    ensures BASE * rest == 2 * (q * rest) * p
  {
    Assoc(p, 2 * q, rest);
    Assoc(2, q, rest);
    Assoc(2 * (q * rest), p, 1);
  }

  lemma HalfPow(k: nat)
    requires k > 0
    ensures Pow(2, k) == 2 * Pow(2, k - 1)
  {
  }

  predicate AllZero(s: seq<Limb>)
  {
    s == [] || (s[|s| - 1] == 0 && AllZero(s[..|s| - 1]))
  }

  lemma NoLimbs()
    ensures AllZero([])
  {
  }

  lemma AllZeroNext(s: seq<Limb>, i: nat)
    requires i < |s|
    ensures AllZero(s[..i + 1]) <==> s[i] == 0 && AllZero(s[..i])
  {
    assert s[..i + 1][..i] == s[..i];
  }

  lemma {:induction false} AllZeroValue(s: seq<Limb>)
    ensures AllZero(s) <==> Value(s) == 0
  {
    if s != [] {
      var n := |s| - 1;
      assert s == s[..n] + [s[n]];
      ValueSnoc(s[..n], s[n]);
      AllZeroValue(s[..n]);
      PowPositive(BASE, n);
      if s[n] > 0 {
        MulAtLeast(Pow(BASE, n), s[n]);
      }
    }
  }

  /** Whether the lowest `k` bits are all zero, limb by limb. */
  lemma LowBitsZero(s: seq<Limb>, k: nat)
    ensures Pow(2, k) > 0 && Pow(2, k % 32) > 0
    ensures var l := k / 32;
            Value(s) % Pow(2, k) == 0 <==>
            AllZero(s[..if l < |s| then l else |s|]) && (l < |s| ==> s[l] % Pow(2, k % 32) == 0)
  {
    hide Value, Pow, AllZero;
    var l, j := k / 32, k % 32;
    PowPositive(2, k);
    PowPositive(2, j);
    PowPositive(BASE, l);
    BitsAreLimbs(k);
    if l < |s| {
      ValueSplit(s, l);
      DivDiv(Value(s), Pow(BASE, l), Pow(2, j));
      AllZeroValue(s[..l]);
      assert s[l..] == [s[l]] + s[l + 1..];
      ValueCons(s[l], s[l + 1..]);
      LowLimb(s[l], Value(s[l + 1..]), j);
    } else {
      assert s[..|s|] == s;
      AllZeroValue(s);
      PowMonotone(BASE, |s|, l);
      MulAtLeast(Pow(BASE, l), Pow(2, j));
      ValueSmall(s, Pow(2, k));
    }
  }

  /** Zero limbs at the top do not count. */
  lemma DropZero(s: seq<Limb>, n: nat)
    requires n < |s| && s[n] == 0
    ensures Value(s[..n]) == Value(s[..n + 1])
  {
    assert s[..n + 1] == s[..n] + [s[n]];
    ValueSnoc(s[..n], s[n]);
  }

  function Zeros(l: nat): seq<Limb> { seq(l, i => 0) }

  lemma {:induction false} ZerosValue(l: nat)
    ensures Value(Zeros(l)) == 0
  {
    if l > 0 {
      assert Zeros(l)[1..] == Zeros(l - 1);
      ZerosValue(l - 1);
    }
  }

  lemma ZerosBelow(l: nat, s: seq<Limb>)
    ensures Value(Zeros(l) + s) == Value(s) * Pow(BASE, l)
  {
    hide Value, Pow;
    ValueAppend(Zeros(l), s);
    ZerosValue(l);
    Assoc(Value(s), Pow(BASE, l), 1);
  }

  /** A number with a non-zero top limb fills its limbs. */
  lemma TopLimb(s: seq<Limb>)
    requires s != [] && s[|s| - 1] != 0
    ensures Value(s) >= Pow(BASE, |s| - 1)
  {
    var n := |s| - 1;
    assert s == s[..n] + [s[n]];
    ValueSnoc(s[..n], s[n]);
    MulAtLeast(Pow(BASE, n), s[n]);
  }
}

module Bignums {
  import opened Arithmetic
  import opened Limbs
  import opened LimbBits
  import opened Rounding
  import opened Reciprocal
  import opened Powers

  /** mpb_t; `tab` is the whole buffer, of which `len` limbs are in use. */
  class Bignum {
    const tab: array<Limb>
    var len: nat

    constructor (capacity: nat)
      requires capacity >= 1
      ensures Valid() && fresh(tab) && tab.Length == capacity && Num() == 0 && Normal() && len == 1
    {
      tab := new Limb[capacity];
      len := 1;
      new;
      tab[0] := 0;
      assert tab[..1] == [0];
      ValueOne(0);
    }

    ghost predicate Valid()
      reads this
    {
      1 <= len <= tab.Length
    }

    /** The number represented. */
    ghost function Num(): nat
      reads this, tab
      requires Valid()
    {
      Value(tab[..len])
    }

    /** No leading zero limb, but for zero itself. */
    ghost predicate Normal()
      reads this, tab
      requires Valid()
    {
      len == 1 || tab[len - 1] != 0
    }

    method Renorm()
      requires Valid()
      modifies this`len
      ensures Valid() && Normal() && len <= old(len) && Num() == old(Num())
    {
      while len > 1 && tab[len - 1] == 0
        invariant Valid() && len <= old(len) && Num() == old(Num())
      {
        DropZero(tab[..], len - 1);
        assert tab[..][..len - 1] == tab[..len - 1] && tab[..][..len] == tab[..len];
        len := len - 1;
      }
    }

    function GetBit(k: nat): (bit: int)
      reads this, tab
      requires Valid()
      ensures bit == Bit(Num(), k)
    {
      hide Value;
      LimbBitIsBit(tab[..len], k);
      LimbBit(tab[..len], k)
    }

    /** mpb_floor_log2. */
    function FloorLog2(): (r: int)
      reads this, tab
      requires Valid()
      ensures Normal() ==> (Num() == 0 <==> r == -1) && (Num() > 0 ==> r >= 0 && Pow(2, r) <= Num() < Pow(2, r + 1))
    {
      hide Value, Pow;
      var v := tab[len - 1];
      TopBits(tab[..len]);
      if v == 0 then -1 else len * LIMB_BITS - 1 - Clz32(v)
    }

    /** mpb_set_u64. */
    method SetU64(m: nat)
      requires tab.Length >= 2 && m < TWO64
      modifies this`len, tab
      ensures Valid() && Normal() && Num() == m && len <= 2
    {
      hide Value;
      tab[0] := m % BASE;
      tab[1] := m / BASE;
      TwoLimbs(m % BASE, m / BASE);
      DivIs(m, BASE);
      if tab[1] == 0 {
        len := 1;
        assert tab[..1] == [tab[0]];
      } else {
        len := 2;
        assert tab[..2] == [tab[0], tab[1]];
      }
    }

    /** mpb_get_u64. */
    function GetU64(): (m: nat)
      reads this, tab
      requires Valid()
      ensures Num() < TWO64 ==> m == Num()
    {
      hide Value;
      LowLimbs(tab[..len]);
      if len == 1 then tab[0] else tab[0] + tab[1] * BASE
    }

    /** Multiplication by one limb, which may lengthen the number. */
    method MulLimb(b: Limb)
      requires Valid() && len < tab.Length && b > 0
      modifies this`len, tab
      ensures Valid() && Num() == old(Num()) * b && len <= old(len) + 1
      ensures old(Normal()) ==> Normal()
    {
      hide Value, Pow;
      ghost var was := tab[..len];
      var h := MpMul1(tab, len, b, 0);
      if h != 0 {
        tab[len] := h;
        assert tab[..len + 1] == tab[..len] + [h];
        ValueSnoc(tab[..len], h);
        Assoc(h, Pow(BASE, len), 1);
        len := len + 1;
      } else {
        MulAtLeast(Value(was), b);
        TopKept(was, tab[..len]);
      }
    }

    /** mpb_mul1_base: `this * base + x`, where a base of zero stands for 2^32. */
    method MulBase(base: Limb, x: Limb)
      requires Valid() && Normal() && len + 2 <= tab.Length
      modifies this`len, tab
      ensures Valid() && Normal() && Num() == old(Num()) * (if base == 0 then BASE else base) + x && len <= old(len) + 1
    {
      hide Value, Pow;
      ZeroTest();
      if tab[0] == 0 && len == 1 {
        tab[0] := x;
        assert tab[..1] == [x];
        ValueOne(x);
      } else {
        if base == 0 {
          ShiftLimbIn(x);
        } else {
          var h := MpMul1(tab, len, base, x);
          tab[len] := h;
          assert tab[..len + 1] == tab[..len] + [h];
          ValueSnoc(tab[..len], h);
          Assoc(h, Pow(BASE, len), 1);
        }
        len := len + 1;
        Renorm();
      }
    }

    lemma ZeroTest()
      requires Valid() && Normal()
      ensures Num() == 0 <==> tab[0] == 0 && len == 1
    {
      hide Value, Pow;
      if len == 1 {
        OneZero(tab[..1]);
      } else {
        TopLimb(tab[..len]);
        PowPositive(BASE, len - 1);
      }
    }

    /** Moves every limb up by one, the unused one behind them included, and puts `x` below. */
    method ShiftLimbIn(x: Limb)
      requires Valid() && len + 2 <= tab.Length
      modifies tab
      ensures Value(tab[..len + 1]) == BASE * old(Num()) + x
    {
      hide Value, Copied;
      ghost var was, n := tab[..], len + 1;
      var i := len;
      CopiedNone(was, n, 1);
      while i >= 0
        invariant -1 <= i <= len && tab[..] == Copied(was, i + 1, n, 1)
      {
        CopiedNext(was, i, n, 1);
        tab[i + 1] := tab[i];
        i := i - 1;
      }
      CopiedAll(was, n, 1, tab[..]);
      UnderCopy(was, tab[..], len, x);
      tab[0] := x;
    }

    /** Exact division by one limb with a precomputed reciprocal. */
    method DivLimb(b: Limb, bInv: Limb, shift: nat, ghost d: Limb) returns (r: Limb)
      requires Valid() && shift < LIMB_BITS && 0 < d && b == d * Pow(2, shift) && Normalised(b) && Inverse(b, bInv)
      modifies this`len, tab
      ensures Valid() && Normal() && old(Num()) == Num() * d + r && r < d && len <= old(len)
    {
      hide Value, Pow, Inverse, Normalised;
      r := MpDiv1norm(tab, len, b, 0, bInv, shift, d);
      Renorm();
    }

    /** Sets the lowest bit. */
    method SetLowBit()
      requires Valid()
      modifies tab
      ensures Valid() && Num() == old(Num()) / 2 * 2 + 1
      ensures old(Normal()) ==> Normal()
    {
      hide Value;
      ghost var was := tab[..len];
      LowBitSet(was);
      tab[0] := tab[0] - tab[0] % 2 + 1;
      assert tab[..len] == was[0 := tab[0]];
    }

    /** Whether any of the lowest `k` bits is set: the loop of mpb_shr_round that ors the limbs below. */
    method AnyLowBit(k: nat) returns (any: bool)
      requires Valid()
      ensures Pow(2, k) > 0 && any == (Num() % Pow(2, k) != 0)
    {
      hide Value, Pow, AllZero;
      any := false;
      var l := k / LIMB_BITS;
      var n := if l < len then l else len;
      NoLimbs();
      for i := 0 to n
        invariant any == !AllZero(tab[..i])
      {
        AllZeroNext(tab[..], i);
        assert tab[..][..i + 1] == tab[..i + 1] && tab[..][..i] == tab[..i];
        any := any || tab[i] != 0;
      }
      LowBitsZero(tab[..len], k);
      assert tab[..len][..n] == tab[..n];
      if l < len {
        any := any || tab[l] % Pow(2, k % LIMB_BITS) != 0;
      }
    }

    /** Shift to the left. */
    method ShiftUp(shift: nat)
      requires Valid() && len + (shift + 31) / LIMB_BITS <= tab.Length
      modifies this`len, tab
      ensures Valid() && Num() == old(Num()) * Pow(2, shift) && len <= old(len) + (shift + 31) / LIMB_BITS
      ensures old(Normal()) && (old(Num()) != 0 || shift < LIMB_BITS) ==> Normal()
    {
      hide Value, Pow;
      var l, s := shift / LIMB_BITS, shift % LIMB_BITS;
      Scaled(Num(), shift);
      if s != 0 {
        ShiftBitsUp(s);
      } else {
        PowZero(Num());
      }
      if l > 0 {
        MoveUp(l);
      } else {
        PowZero(Num());
      }
    }

    /** Shift to the left by less than a limb. */
    method ShiftBitsUp(s: nat)
      requires Valid() && 0 < s < LIMB_BITS && len < tab.Length
      modifies this`len, tab
      ensures Valid() && Num() == old(Num()) * Pow(2, s) && len <= old(len) + 1 && Normal()
      ensures old(Num()) != 0 ==> Num() != 0
    {
      hide Value, Pow;
      ghost var v := Num();
      PowPositive(2, s);
      var carry := MpShl(tab, len, s, 0);
      tab[len] := carry;
      assert tab[..len + 1] == tab[..len] + [carry];
      ValueSnoc(tab[..len], carry);
      Assoc(carry, Pow(BASE, len), 1);
      len := len + 1;
      Renorm();
      MulAtLeast(v, Pow(2, s));
    }

    /** Shift to the left by whole limbs. */
    method MoveUp(l: nat)
      requires Valid() && len + l <= tab.Length && l > 0
      modifies this`len, tab
      ensures Valid() && Num() == old(Num()) * Pow(BASE, l) && len == old(len) + l
      ensures old(Normal()) && old(Num()) != 0 ==> Normal()
    {
      hide Value, Pow;
      ghost var was := tab[..len];
      CopyUp(l);
      ClearLow(l);
      ZerosBelow(l, was);
      assert tab[..len + l] == tab[..l] + tab[l..len + l];
      if |was| == 1 {
        OneZero(was);
      }
      len := len + l;
      assert tab[len - 1] == was[|was| - 1];
    }

    method CopyUp(l: nat)
      requires Valid() && len + l <= tab.Length
      modifies tab
      ensures tab[l..len + l] == old(tab[..len])
    {
      ghost var was, n := tab[..], len;
      var i := len;
      CopiedNone(was, n, l);
      while i > 0
        invariant 0 <= i <= n == len && tab[..] == Copied(was, i, n, l)
      {
        i := i - 1;
        CopiedNext(was, i, n, l);
        tab[i + l] := tab[i];
      }
      CopiedAll(was, n, l, tab[..]);
    }

    method ClearLow(l: nat)
      requires Valid() && len + l <= tab.Length
      modifies tab
      ensures tab[..l] == Zeros(l) && tab[l..len + l] == old(tab[l..len + l])
    {
      for j := 0 to l
        invariant tab[l..len + l] == old(tab[l..len + l]) && tab[..j] == Zeros(j)
      {
        tab[j] := 0;
        assert tab[..j + 1] == tab[..j] + [0];
      }
    }

    /** Shift to the right, then add the rounding increment. */
    method ShiftDown(shift: nat, addOne: Limb)
      requires Valid() && shift > 0 && addOne <= 1
      modifies this`len, tab
      ensures Valid() && Pow(2, shift) > 0 && Num() == old(Num()) / Pow(2, shift) + addOne && len <= old(len)
      ensures old(Normal()) ==> Normal()
    {
      hide Value, Pow;
      ghost var v, n := Num(), len;
      var l, s := shift / LIMB_BITS, shift % LIMB_BITS;
      PowPositive(2, shift);
      if l >= len {
        TooFar(tab[..len], shift);
        len := 1;
        tab[0] := addOne;
        assert tab[..1] == [addOne];
        ValueOne(addOne);
      } else {
        ValueBound(tab[..len]);
        Cut(l, s, shift);
        ghost var q := Num();
        if addOne != 0 {
          var was := tab[..len];
          var a := MpAddUi(tab, 1, len);
          Carry(v, q, Value(tab[..len]), a, n, len, shift);
          if a != 0 {
            tab[len] := a;
            assert tab[..len + 1] == tab[..len] + [a];
            ValueSnoc(tab[..len], a);
            Assoc(a, Pow(BASE, len), 1);
            len := len + 1;
          } else {
            TopKept(was, tab[..len]);
          }
        }
      }
    }

    /** The shift without the increment. */
    method Cut(l: nat, s: nat, ghost shift: nat)
      requires Valid() && l == shift / LIMB_BITS < len && s == shift % LIMB_BITS
      modifies this`len, tab
      ensures Valid() && Pow(2, shift) > 0 && Num() == old(Num()) / Pow(2, shift) && len <= old(len)
      ensures old(Normal()) ==> Normal()
    {
      hide Value, Pow;
      ghost var v := Num();
      PowPositive(2, s);
      ValueSplit(tab[..len], l);
      if l > 0 {
        MoveDown(l);
      } else {
        assert tab[..len][0..] == tab[..len];
      }
      if s != 0 {
        ShiftBits(s);
      } else {
        PowZero(Num());
      }
      CutQuotient(v, shift);
    }

    /** Shift to the right by less than a limb. */
    method ShiftBits(s: nat)
      requires Valid() && 0 < s < LIMB_BITS
      modifies this`len, tab
      ensures Valid() && Pow(2, s) > 0 && Num() == old(Num()) / Pow(2, s) && len <= old(len) && Normal()
    {
      hide Value, Pow;
      PowPositive(2, s);
      var r := MpShr(tab, len, s, 0);
      DivUnique(old(Num()), Pow(2, s), Num(), r);
      Renorm();
    }

    /** Shift to the right by whole limbs. */
    method MoveDown(l: nat)
      requires Valid() && l < len
      modifies this`len, tab
      ensures Valid() && len == old(len) - l && tab[..len] == old(tab[..len][l..]) && Num() == Value(old(tab[..len][l..]))
      ensures old(Normal()) ==> Normal()
    {
      ghost var was := tab[..len];
      len := len - l;
      for i := 0 to len
        invariant tab[..i] == was[l..l + i] && forall k :: i <= k < |was| ==> tab[k] == was[k]
        invariant len == |was| - l
      {
        tab[i] := tab[i + l];
        assert tab[..i + 1] == tab[..i] + [tab[i]];
      }
      assert tab[..len] == was[l..];
    }

    /** mpb_shr_round. */
    method ShrRound(shift: int, mode: Mode)
      requires Valid() && (shift < 0 ==> len + (31 - shift) / LIMB_BITS <= tab.Length)
      modifies this`len, tab
      ensures Valid() && len <= old(len) + (if shift < 0 then (31 - shift) / LIMB_BITS else 0)
      ensures shift <= 0 ==> Num() == old(Num()) * Pow(2, -shift)
      ensures shift > 0 ==> IsRound(Num(), old(Num()), Pow(2, shift), mode)
      ensures old(Normal()) && (old(Num()) != 0 || shift > -LIMB_BITS) ==> Normal()
    {
      hide Value, Pow, IsRound;
      if shift == 0 {
        PowZero(Num());
        return;
      }
      if shift < 0 {
        ShiftUp(-shift);
      } else {
        ghost var v := Num();
        var addOne := AddOne(shift, mode);
        ShiftDown(shift, addOne);
        HalfPow(shift);
        PowPositive(2, shift - 1);
        IncrementRounds(v, Pow(2, shift - 1), mode);
      }
    }

    /** The increment that rounding asks for. */
    method AddOne(shift: nat, mode: Mode) returns (addOne: Limb)
      requires Valid() && shift > 0
      ensures Pow(2, shift - 1) > 0 && addOne == Increment(Num(), Pow(2, shift - 1), mode) && addOne <= 1
    {
      hide Value, Pow;
      HalfPow(shift);
      PowPositive(2, shift - 1);
      addOne := 0;
      if mode != TowardZero {
        var bit1 := GetBit(shift - 1);
        if bit1 != 0 {
          var bit2 := true;
          if mode != NearestAway {
            bit2 := false;
            if shift >= 2 {
              bit2 := AnyLowBit(shift - 1);
            } else {
              PowZero(Num());
            }
          }
          if bit2 {
            addOne := 1;
          } else {
            addOne := GetBit(shift);
          }
        }
      }
    }
  }

  lemma CutQuotient(v: nat, shift: nat)
    ensures Pow(BASE, shift / 32) > 0 && Pow(2, shift % 32) > 0 && Pow(2, shift) > 0
    ensures v / Pow(BASE, shift / 32) / Pow(2, shift % 32) == v / Pow(2, shift)
  {
    hide Pow;
    BitsAreLimbs(shift);
    PowPositive(2, shift);
    PowPositive(2, shift % 32);
    PowPositive(BASE, shift / 32);
    DivDiv(v, Pow(BASE, shift / 32), Pow(2, shift % 32));
  }

  lemma Scaled(v: nat, shift: nat)
    ensures v * Pow(2, shift % 32) * Pow(BASE, shift / 32) == v * Pow(2, shift)
  {
    hide Pow;
    BitsAreLimbs(shift);
    Assoc(v, Pow(2, shift % 32), Pow(BASE, shift / 32));
    Assoc(Pow(2, shift % 32), Pow(BASE, shift / 32), 1);
  }

  /** A number at least as large as another of the same length, whose top limb is set, has its own set. */
  lemma TopKept(s: seq<Limb>, t: seq<Limb>)
    requires |s| == |t| > 0 && Value(t) >= Value(s)
    ensures s[|s| - 1] != 0 ==> t[|t| - 1] != 0
  {
    hide Value, Pow;
    var n := |s| - 1;
    if s[n] != 0 && t[n] == 0 {
      TopLimb(s);
      assert t == t[..n] + [t[n]];
      ValueSnoc(t[..n], t[n]);
      ValueBound(t[..n]);
      assert false;
    }
  }

  lemma LowBitSet(s: seq<Limb>)
    requires s != []
    ensures 0 <= s[0] - s[0] % 2 + 1 < BASE && Value(s[0 := s[0] - s[0] % 2 + 1]) == Value(s) / 2 * 2 + 1
  {
    hide Value;
    var x: Limb := s[0] - s[0] % 2 + 1;
    assert s == [s[0]] + s[1..] && s[0 := x] == [x] + s[1..];
    ValueCons(s[0], s[1..]);
    ValueCons(x, s[1..]);
    OddAbove(s[0], Value(s[1..]));
  }

  lemma OddAbove(x: Limb, r: nat)
    ensures x - x % 2 + 1 + BASE * r == (x + BASE * r) / 2 * 2 + 1
  {
    DivUnique(x + BASE * r, 2, x / 2 + 0x8000_0000 * r, x % 2);
  }

  /** The buffer with the limbs from `i` to `n` copied `l` places up. */
  function Copied(s: seq<Limb>, i: nat, n: nat, l: nat): seq<Limb>
    requires i <= n && n + l <= |s|
  {
    s[..i + l] + s[i..n] + s[n + l..]
  }

  lemma CopiedNone(s: seq<Limb>, n: nat, l: nat)
    requires n + l <= |s|
    ensures Copied(s, n, n, l) == s
  {
  }

  lemma CopiedNext(s: seq<Limb>, i: nat, n: nat, l: nat)
    requires i < n && n + l <= |s|
    ensures var t := Copied(s, i + 1, n, l); |t| == |s| && t[i + l := t[i]] == Copied(s, i, n, l)
  {
    assert s[..i + 1 + l] == s[..i + l] + [s[i + l]];
    assert s[i..n] == [s[i]] + s[i + 1..n];
  }

  lemma CopiedAll(s: seq<Limb>, n: nat, l: nat, t: seq<Limb>)
    requires n + l <= |s| && t == Copied(s, 0, n, l)
    ensures |t| == |s| && t[l..n + l] == s[..n]
  {
  }

  lemma UnderCopy(s: seq<Limb>, t: seq<Limb>, len: nat, x: Limb)
    requires |t| == |s| && len + 2 <= |s| && t[1..len + 2] == s[..len + 1]
    ensures Value(t[0 := x][..len + 1]) == BASE * Value(s[..len]) + x
  {
    hide Value;
    assert t[1..len + 2][..len] == s[..len + 1][..len] == s[..len];
    assert t[0 := x][..len + 1] == [x] + s[..len];
    ValueCons(x, s[..len]);
  }

  lemma TwoLimbs(x: Limb, y: Limb)
    ensures Value([x, y]) == x + BASE * y && Value([x]) == x
  {
    assert [x, y] == [x] + [y];
    ValueCons(x, [y]);
    ValueOne(x);
    ValueOne(y);
  }

  lemma LowLimbs(s: seq<Limb>)
    requires s != []
    ensures |s| == 1 ==> Value(s) == s[0]
    ensures |s| > 1 && Value(s) < TWO64 ==> Value(s) == s[0] + s[1] * BASE
  {
    hide Value;
    assert s == [s[0]] + s[1..];
    ValueCons(s[0], s[1..]);
    if |s| > 1 {
      assert s[1..] == [s[1]] + s[2..];
      ValueCons(s[1], s[2..]);
    } else {
      assert s == [s[0]];
      ValueOne(s[0]);
    }
  }

  /** The highest set bit is found in the top limb. */
  lemma TopBits(s: seq<Limb>)
    requires s != []
    ensures s[|s| - 1] == 0 && |s| == 1 ==> Value(s) == 0
    ensures var v := s[|s| - 1]; v > 0 ==>
              Value(s) > 0 && Clz32(v) < 32 && var r := |s| * 32 - 1 - Clz32(v); r >= 0 && Pow(2, r) <= Value(s) < Pow(2, r + 1)
  {
    hide Value, Pow, Clz32;
    var n := |s| - 1;
    var v := s[n];
    if v == 0 {
      if |s| == 1 {
        OneZero(s);
      }
    } else {
      Clz32Normalises(v);
      BitCount(v);
      var z := 32 - Clz32(v);
      assert s == s[..n] + [v];
      ValueSnoc(s[..n], v);
      ValueBound(s[..n]);
      LimbBitsCount(n, z);
      PowPositive(2, 32 * n + (z - 1));
      TopRange(Value(s[..n]), Pow(BASE, n), v, Pow(2, z - 1), Pow(2, z));
      assert |s| * 32 - 1 - Clz32(v) == 32 * n + (z - 1);
    }
  }

  lemma LimbBitsCount(n: nat, z: nat)
    requires z > 0
    ensures Pow(2, 32 * n + (z - 1)) == Pow(BASE, n) * Pow(2, z - 1) && Pow(2, 32 * n + (z - 1) + 1) == Pow(BASE, n) * Pow(2, z)
  {
    hide Pow;
    BaseIsPow();
    PowMul(2, 32, n);
    PowAdd(2, 32 * n, z - 1);
    PowAdd(2, 32 * n, z);
  }

  lemma TopRange(low: int, p: int, v: int, x: int, y: int)
    requires 0 <= low < p && x <= v < y
    ensures p * x <= low + p * v < p * y
  {
    MulMono(x, v, p);
    MulMono(v + 1, y, p);
    Distrib(p, v, 1);
  }

  lemma PowZero(v: nat)
    ensures Pow(2, 0) == 1 && Pow(BASE, 0) == 1 && v * Pow(2, 0) == v && v * Pow(BASE, 0) == v && v / Pow(2, 0) == v
    ensures v % Pow(2, 0) == 0
  {
  }

  lemma OneZero(s: seq<Limb>)
    requires |s| == 1
    ensures Value(s) == s[0]
  {
    assert s == [s[0]];
    ValueOne(s[0]);
  }

  lemma TooFar(s: seq<Limb>, shift: nat)
    requires shift / LIMB_BITS >= |s|
    ensures Pow(2, shift) > 0 && Value(s) / Pow(2, shift) == 0
  {
    hide Value, Pow;
    BitsAreLimbs(shift);
    PowMonotone(BASE, |s|, shift / LIMB_BITS);
    PowPositive(2, shift % LIMB_BITS);
    MulAtLeast(Pow(BASE, shift / LIMB_BITS), Pow(2, shift % LIMB_BITS));
    ValueSmall(s, Pow(2, shift));
  }

  /** A carry out of the top limb needs room that the shift has made. */
  lemma Carry(v: nat, q: nat, w: nat, a: Limb, n: nat, m: nat, shift: nat)
    requires v < Pow(BASE, n) && n > 0 && shift > 0 && Pow(2, shift) > 0 && q == v / Pow(2, shift) && m <= n
    requires w + a * Pow(BASE, m) == q + 1
    ensures a != 0 ==> m < n
  {
    hide Pow;
    if a != 0 && m == n {
      var p := Pow(BASE, n);
      HalfPow(shift);
      PowPositive(2, shift - 1);
      DivIs(v, Pow(2, shift));
      MulMono(2, Pow(2, shift), q);
      MulMono(1, a, p);
      PowPositive(BASE, n);
      assert q + 1 >= p && 2 * q <= v;
      assert p >= 2 by {
        PowPositive(BASE, n - 1);
        PowSucc(BASE, n - 1);
      }
      assert false;
    }
  }
}
