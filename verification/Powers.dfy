// pow_ui and pow_ui_inv, with the tables they use.
module Powers {
  import opened Arithmetic
  import opened Limbs
  import opened Reciprocal
  import opened Logarithms

  const TWO64 := 0x1_0000_0000_0000_0000

  /** digits_per_limb_table, for radix 2 to 36. */
  const digitsPerLimbTable: seq<nat> :=
    [32, 20, 16, 13, 12, 11, 10, 10, 9, 9, 8, 8, 8, 8, 8, 7, 7, 7, 7, 7, 7, 7,
     6, 6, 6, 6, 6, 6, 6, 6, 6, 6, 6, 6, 6]

  const pow5Table: seq<Limb> :=
    [0x00000005, 0x00000019, 0x0000007d, 0x00000271, 0x00000c35, 0x00003d09, 0x0001312d, 0x0005f5e1,
     0x001dcd65, 0x009502f9, 0x02e90edd, 0x0e8d4a51, 0x48c27395, 0x6bcc41e9, 0x1afd498d, 0x86f26fc1,
     0xa2bc2ec5]

  const pow5hTable: seq<Limb> := [0x00000001, 0x00000007, 0x00000023, 0x000000b1]

  const pow5InvTable: seq<Limb> :=
    [0x99999999, 0x47ae147a, 0x0624dd2f, 0xa36e2eb1, 0x4f8b588e, 0x0c6f7a0b, 0xad7f29ab, 0x5798ee23,
     0x12e0be82, 0xb7cdfd9d, 0x5fd7fe17, 0x19799812, 0xc25c2684]

  function DigitsPerLimb(radix: nat): nat
    requires 2 <= radix <= 36
  {
    digitsPerLimbTable[radix - 2]
  }

  lemma DigitTable(radix: nat)
    requires 2 <= radix <= 36
    ensures 6 <= DigitsPerLimb(radix) <= 32 && DigitsPerLimb(radix) * BoundsOf(radix).q1 <= BoundsOf(radix).p1 * 32
  {
  }

  /** A limb holds every number of that many digits. */
  lemma DigitsFit(radix: nat)
    requires 2 <= radix <= 36
    ensures DigitsPerLimb(radix) >= 6 && Pow(radix, DigitsPerLimb(radix)) <= BASE
    ensures !PowerOfTwo(radix) ==> Pow(radix, DigitsPerLimb(radix)) < BASE
  {
    hide Pow, BoundsOf;
    DigitTable(radix);
    TableBelow(radix, DigitsPerLimb(radix), 32);
    BaseIsPow();
  }

  lemma DigitsSmall(radix: nat)
    requires 2 <= radix <= 36
    ensures DigitsPerLimb(radix) <= 32
  {
  }

  lemma Pow5Low()
    ensures Pow(5, 1) == 0x5 && Pow(5, 2) == 0x19 && Pow(5, 3) == 0x7d && Pow(5, 4) == 0x271 && Pow(5, 5) == 0xc35
    ensures Pow(5, 6) == 0x3d09 && Pow(5, 7) == 0x1312d && Pow(5, 8) == 0x5f5e1 && Pow(5, 9) == 0x1dcd65
  {
  }

  lemma Pow5High()
    ensures Pow(5, 10) == 0x9502f9 && Pow(5, 11) == 0x2e90edd && Pow(5, 12) == 0xe8d4a51 && Pow(5, 13) == 0x48c27395
    ensures Pow(5, 14) == 0x16bcc41e9 && Pow(5, 15) == 0x71afd498d && Pow(5, 16) == 0x2386f26fc1 && Pow(5, 17) == 0xb1a2bc2ec5
  {
  }

  /** The power-of-five tables are right. */
  lemma Pow5Tables(b: nat)
    requires 1 <= b <= 17
    ensures Pow(5, b) == pow5Table[b - 1] + if b >= 14 then pow5hTable[b - 14] * BASE else 0
  {
    hide Pow;
    Pow5Low();
    Pow5High();
  }

  /** The stored inverses are those of the powers, shifted until their high bit is set. */
  lemma Inverse5(b: nat)
    requires 1 <= b <= 13
    ensures Pow(5, b) == pow5Table[b - 1] > 0
    ensures 0 <= pow5Table[b - 1] * Pow(2, Clz32(pow5Table[b - 1])) < BASE
    ensures Inverse(pow5Table[b - 1] * Pow(2, Clz32(pow5Table[b - 1])), pow5InvTable[b - 1])
  {
    hide Pow, Clz32;
    Pow5Tables(b);
    var x := pow5Table[b - 1];
    var n := [29, 27, 25, 22, 20, 18, 15, 13, 11, 8, 6, 4, 1][b - 1];
    Shifts();
    Clz32Is(x, n);
  }

  lemma Shifts()
    ensures Pow(2, 29) == 536870912 && Pow(2, 27) == 134217728 && Pow(2, 25) == 33554432 && Pow(2, 22) == 4194304 && Pow(2, 20) == 1048576 && Pow(2, 18) == 262144
    ensures Pow(2, 15) == 32768 && Pow(2, 13) == 8192 && Pow(2, 11) == 2048 && Pow(2, 8) == 256 && Pow(2, 6) == 64 && Pow(2, 4) == 16 && Pow(2, 1) == 2
  {
    assert Pow(2, 14) == 16384 && Pow(2, 15) == 32768;
    PowAdd(2, 15, 14);
    PowAdd(2, 14, 13);
    PowAdd(2, 14, 11);
    PowAdd(2, 14, 8);
    PowAdd(2, 14, 6);
    PowAdd(2, 14, 4);
  }

  lemma Clz32Is(x: Limb, n: nat)
    requires x > 0 && 0x8000_0000 <= x * Pow(2, n) < BASE
    ensures Clz32(x) == n
  {
    hide Clz32, Pow;
    Clz32Normalises(x);
    var m := Clz32(x);
    if m < n {
      TwicePow(x, m, n);
    } else if n < m {
      TwicePow(x, n, m);
    }
  }

  lemma TwicePow(x: nat, m: nat, n: nat)
    requires m < n
    ensures x * Pow(2, n) >= 2 * (x * Pow(2, m))
  {
    PowMonotone(2, m + 1, n);
    MulMono(2 * Pow(2, m), Pow(2, n), x);
    Assoc(x, 2, Pow(2, m));
    Assoc(2, x, Pow(2, m));
  }

  function Clz32(x: Limb): (n: nat)
    requires x > 0
    decreases BASE - x
  {
    if x >= 0x8000_0000 then 0 else 1 + Clz32(2 * x)
  }

  lemma {:induction false} Clz32Normalises(x: Limb)
    requires x > 0
    ensures Clz32(x) < 32 && 0x8000_0000 <= x * Pow(2, Clz32(x)) < BASE
    decreases BASE - x
  {
    if x < 0x8000_0000 {
      Clz32Normalises(2 * x);
      var p := Pow(2, Clz32(2 * x));
      Assoc(x, 2, p);
      Assoc(2, x, p);
      if Clz32(2 * x) == 31 {
        HalfLimb();
        MulMono(2, 2 * x, p);
      }
    }
  }

  lemma HalfLimb()
    ensures Pow(2, 31) == 0x8000_0000
  {
    SplitBase(31);
  }

  lemma ModTimes(x: nat, y: nat)
    ensures ((x % TWO64) * y) % TWO64 == (x * y) % TWO64
  {
    DivIs(x, TWO64);
    DivIs(x * y, TWO64);
    var z := (x % TWO64) * y;
    DivIs(z, TWO64);
    Distrib(y, (x / TWO64) * TWO64, x % TWO64);
    Assoc(x / TWO64, TWO64, y);
    Assoc(x / TWO64, y, TWO64);
    DivUnique(x * y, TWO64, (x / TWO64) * y + z / TWO64, z % TWO64);
  }

  /** One squaring step of pow_ui, with the products wrapped to 64 bits. */
  lemma SquareStep(a: nat, k: nat, r: nat, bit: nat)
    requires r == Pow(a, k) % TWO64 && bit <= 1
    ensures var s := (r * r) % TWO64;
            (if bit == 1 then (s * a) % TWO64 else s) == Pow(a, 2 * k + bit) % TWO64
  {
    hide Pow;
    var x := Pow(a, k);
    ModTimes(x, r);
    ModTimes(x, x);
    Assoc(x, r, 1);
    PowAdd(a, k, k);
    ModTimes(Pow(a, 2 * k), a);
    PowOne(a);
    PowAdd(a, 2 * k, 1);
  }

  /** The number of bits of a limb. */
  lemma BitCount(b: Limb)
    requires b > 0
    ensures var n := 32 - Clz32(b); n >= 1 && Pow(2, n - 1) <= b < Pow(2, n)
  {
    hide Pow;
    Clz32Normalises(b);
    var z := Clz32(b);
    HalfLimb();
    SplitBase(z);
    PowAdd(2, z, 31 - z);
    Assoc(Pow(2, z), Pow(2, 31 - z), 1);
    MulCancel(Pow(2, 31 - z), b, Pow(2, z));
    MulCancel(b, Pow(2, 32 - z), Pow(2, z));
  }

  lemma NextBit(b: nat, i: nat)
    ensures Pow(2, i) > 0 && Pow(2, i + 1) > 0
    ensures b / Pow(2, i) == 2 * (b / Pow(2, i + 1)) + (b / Pow(2, i)) % 2
  {
    hide Pow;
    PowPositive(2, i);
    PowPositive(2, i + 1);
    PowAdd(2, i, 1);
    PowOne(2);
    DivDiv(b, Pow(2, i), 2);
  }

  lemma TopBit(b: nat, n: nat)
    requires n >= 1 && Pow(2, n - 1) <= b < Pow(2, n)
    ensures Pow(2, n - 1) > 0 && b / Pow(2, n - 1) == 1
  {
    hide Pow;
    PowPositive(2, n - 1);
    PowAdd(2, n - 1, 1);
    PowOne(2);
    DivUnique(b, Pow(2, n - 1), 1, b - Pow(2, n - 1));
  }

  /** The table entry for 5 or 10. */
  lemma TablePower(a: nat, b: nat)
    requires (a == 5 || a == 10) && 2 <= b <= 17
    ensures var r := pow5Table[b - 1] + if b >= 14 then pow5hTable[b - 14] * BASE else 0;
            Pow(a, b) % TWO64 == if a == 10 then r * Pow(2, b) % TWO64 else r
  {
    hide Pow;
    Pow5Tables(b);
    if a == 10 {
      PowProduct(5, 2, b);
    } else {
      DivUnique(Pow(5, b), TWO64, 0, Pow(5, b));
    }
  }

  /** The power in 64-bit arithmetic. */
  method PowUi(a: Limb, b: Limb) returns (r: nat)
    ensures r == Pow(a, b) % TWO64
  {
    hide Pow, Clz32;
    PowOne(a);
    if b == 0 {
      return 1;
    }
    if b == 1 {
      return a;
    }
    if (a == 5 || a == 10) && b <= 17 {
      TablePower(a, b);
      r := pow5Table[b - 1];
      if b >= 14 {
        r := r + pow5hTable[b - 14] * BASE;
      }
      if a == 10 {
        r := r * Pow(2, b) % TWO64;
      }
      return r;
    }
    r := PowBySquaring(a, b);
  }

  method PowBySquaring(a: Limb, b: Limb) returns (r: nat)
    requires b > 1
    ensures r == Pow(a, b) % TWO64
  {
    hide Pow, Clz32;
    r := a;
    var nBits := 32 - Clz32(b);
    BitCount(b);
    TopBit(b, nBits);
    PowOne(a);
    PowOne(2);
    var i := nBits - 1;
    while i > 0
      invariant 0 <= i < nBits && Pow(2, i) > 0 && r == Pow(a, b / Pow(2, i)) % TWO64
    {
      i := i - 1;
      NextBit(b, i);
      SquareStep(a, b / Pow(2, i + 1), r, (b / Pow(2, i)) % 2);
      r := (r * r) % TWO64;
      if (b / Pow(2, i)) % 2 == 1 {
        r := (r * a) % TWO64;
      }
    }
    assert b / Pow(2, 0) == b;
  }

  /** The power shifted until its high bit is set, the shift, and the reciprocal. */
  method PowUiInv(a: Limb, b: Limb) returns (r: Limb, rInv: Limb, shift: nat)
    requires 0 < Pow(a, b) < BASE
    ensures shift < LIMB_BITS && r == Pow(a, b) * Pow(2, shift) && Normalised(r) && Inverse(r, rInv)
  {
    hide Pow, Clz32, Inverse;
    if a == 5 && 1 <= b <= 13 {
      Inverse5(b);
      Clz32Normalises(pow5Table[b - 1]);
      shift := Clz32(pow5Table[b - 1]);
      r := pow5Table[b - 1] * Pow(2, shift);
      rInv := pow5InvTable[b - 1];
    } else {
      var p := PowUi(a, b);
      DivUnique(Pow(a, b), TWO64, 0, Pow(a, b));
      Clz32Normalises(p);
      shift := Clz32(p);
      r := p * Pow(2, shift);
      rInv := Udiv1normInit(r);
    }
  }
}
