// Digits of a number in a radix: how output_digits writes them and how the digit loop of js_atod reads them back.
module DigitStrings {
  import opened Arithmetic

  function DigitChar(d: nat): char
    requires d < 36
  {
    if d < 10 then '0' + d as char else 'a' + (d - 10) as char
  }

  /** to_digit */
  function ToDigit(c: char): nat
  {
    if '0' <= c <= '9' then (c - '0') as nat
    else if 'A' <= c <= 'Z' then (c - 'A') as nat + 10
    else if 'a' <= c <= 'z' then (c - 'a') as nat + 10
    else 36
  }

  lemma ToDigitChar(d: nat)
    requires d < 36
    ensures ToDigit(DigitChar(d)) == d && (DigitChar(d) == '0' <==> d == 0)
  {
  }

  /** The `n` lowest digits of `v`, highest first. */
  function Printed(v: nat, radix: nat, n: nat): (s: seq<char>)
    requires 2 <= radix <= 36
    ensures |s| == n
    decreases n
  {
    if n == 0 then [] else Printed(v / radix, radix, n - 1) + [DigitChar(v % radix)]
  }

  predicate AllDigits(s: seq<char>, radix: nat) { forall i :: 0 <= i < |s| ==> ToDigit(s[i]) < radix }

  /** What a string of digits denotes. */
  function Read(s: seq<char>, radix: nat): nat
  {
    if s == [] then 0 else Read(s[..|s| - 1], radix) * radix + ToDigit(s[|s| - 1])
  }

  lemma ReadPush(s: seq<char>, c: char, radix: nat)
    ensures Read(s + [c], radix) == Read(s, radix) * radix + ToDigit(c)
  {
    assert (s + [c])[..|s|] == s;
  }

  lemma {:induction false} ReadAppend(s: seq<char>, t: seq<char>, radix: nat)
    ensures Read(s + t, radix) == Read(s, radix) * Pow(radix, |t|) + Read(t, radix)
  {
    if t == [] {
      assert s + t == s;
    } else {
      var n := |t| - 1;
      assert s + t == (s + t[..n]) + [t[n]];
      assert t == t[..n] + [t[n]];
      ReadAppend(s, t[..n], radix);
      ReadPush(s + t[..n], t[n], radix);
      ReadPush(t[..n], t[n], radix);
      AppendArithmetic(Read(s, radix), Pow(radix, n), Read(t[..n], radix), radix, ToDigit(t[n]));
    }
  }

  lemma AppendArithmetic(a: int, p: int, b: int, r: int, d: int)
    ensures (a * p + b) * r + d == a * (r * p) + (b * r + d)
  {
    Distrib(r, a * p, b);
    Assoc(a, p, r);
    Assoc(p, r, 1);
  }

  lemma {:induction false} ReadBound(s: seq<char>, radix: nat)
    requires AllDigits(s, radix) && radix > 0
    ensures Read(s, radix) < Pow(radix, |s|)
  {
    if s != [] {
      var n := |s| - 1;
      ReadBound(s[..n], radix);
      MulMono(Read(s[..n], radix) + 1, Pow(radix, n), radix);
      Distrib(radix, Read(s[..n], radix), 1);
    }
  }

  lemma DigitOf(v: nat, radix: nat)
    requires 2 <= radix <= 36
    ensures v % radix < 36 && ToDigit(DigitChar(v % radix)) == v % radix < radix && v / radix >= 0
  {
    DivIs(v, radix);
    DivNonneg(v, radix);
    ToDigitChar(v % radix);
  }

  lemma {:induction false} PrintedDigits(v: nat, radix: nat, n: nat)
    requires 2 <= radix <= 36
    ensures AllDigits(Printed(v, radix, n), radix)
    decreases n
  {
    hide Printed, DigitChar, ToDigit;
    if n > 0 {
      DigitOf(v, radix);
      PrintedDigits(v / radix, radix, n - 1);
      PrintedStep(v, radix, n);
      var s := Printed(v / radix, radix, n - 1);
      forall i | 0 <= i < n ensures ToDigit((s + [DigitChar(v % radix)])[i]) < radix {
        if i < n - 1 {
          assert ToDigit(s[i]) < radix;
        }
      }
    }
  }

  /** Reading what was printed gives the number back, less what did not fit. */
  lemma {:induction false} ReadPrinted(v: nat, radix: nat, n: nat)
    requires 2 <= radix <= 36
    ensures Pow(radix, n) > 0 && Read(Printed(v, radix, n), radix) == v % Pow(radix, n)
    decreases n
  {
    hide Read;
    PowPositive(radix, n);
    if n == 0 {
      ReadNothing(radix);
    } else {
      var q := v / radix;
      DigitOf(v, radix);
      ReadPrinted(q, radix, n - 1);
      PrintedStep(v, radix, n);
      ReadPush(Printed(q, radix, n - 1), DigitChar(v % radix), radix);
      ModSplit(v, radix, Pow(radix, n - 1));
    }
  }

  lemma ReadNothing(radix: nat)
    ensures Read([], radix) == 0
  {
  }

  lemma PrintedStep(v: nat, radix: nat, n: nat)
    requires 2 <= radix <= 36 && n > 0
    ensures Printed(v, radix, n) == Printed(v / radix, radix, n - 1) + [DigitChar(v % radix)]
    ensures Pow(radix, n) == radix * Pow(radix, n - 1)
  {
  }

  lemma ModSplit(v: nat, r: nat, p: nat)
    requires r > 0 && p > 0
    ensures r * p > 0 && v % (r * p) == (v / r) % p * r + v % r
  {
    MulLess(r, 0, p);
    var q := v / r;
    DivIs(v, r);
    DivIs(q, p);
    DivNonneg(v, r);
    Distrib(r, (q / p) * p, q % p);
    Assoc(q / p, p, r);
    Assoc(p, r, 1);
    MulMono(q % p + 1, p, r);
    Distrib(r, q % p, 1);
    MulNonneg(q % p, r);
    DivUnique(v, r * p, q / p, (q % p) * r + v % r);
  }

  /** Printing goes chunk by chunk. */
  lemma {:induction false} PrintedSplit(v: nat, radix: nat, i: nat, j: nat)
    requires 2 <= radix <= 36
    ensures Pow(radix, j) > 0 && v / Pow(radix, j) >= 0
    ensures Printed(v, radix, i + j) == Printed(v / Pow(radix, j), radix, i) + Printed(v, radix, j)
    decreases j
  {
    PowPositive(radix, j);
    DivNonneg(v, Pow(radix, j));
    if j > 0 {
      DigitOf(v, radix);
      PrintedSplit(v / radix, radix, i, j - 1);
      DivDiv(v, radix, Pow(radix, j - 1));
      PrintedStep(v, radix, i + j);
      PrintedStep(v, radix, j);
    } else {
      assert v / 1 == v;
    }
  }

  /** Only the lowest digits matter. */
  lemma {:induction false} PrintedMod(v: nat, radix: nat, n: nat, m: nat)
    requires 2 <= radix <= 36 && Pow(radix, n) > 0 && m % Pow(radix, n) == v % Pow(radix, n)
    ensures Printed(m, radix, n) == Printed(v, radix, n)
    decreases n
  {
    hide Printed, Pow;
    if n > 0 {
      DigitOf(v, radix);
      DigitOf(m, radix);
      PowPositive(radix, n - 1);
      PrintedStep(v, radix, n);
      LowDigits(v, m, radix, Pow(radix, n - 1), Pow(radix, n));
      PrintedMod(v / radix, radix, n - 1, m / radix);
      PrintedStep(v, radix, n);
      PrintedStep(m, radix, n);
    } else {
      PrintedNone(v, m, radix);
    }
  }

  lemma PrintedNone(v: nat, m: nat, radix: nat)
    requires 2 <= radix <= 36
    ensures Printed(v, radix, 0) == Printed(m, radix, 0)
  {
  }

  lemma LowDigits(v: nat, m: nat, r: nat, p: nat, rp: nat)
    requires r > 0 && p > 0 && rp == r * p && rp > 0 && m % rp == v % rp
    ensures m % r == v % r && m / r >= 0 && v / r >= 0 && (m / r) % p == (v / r) % p
  {
    ModSplit(v, r, p);
    ModSplit(m, r, p);
    DivIs(v, r);
    DivIs(m, r);
    DivNonneg(v, r);
    DivNonneg(m, r);
    DivUnique(v % rp, r, (v / r) % p, v % r);
    DivUnique(v % rp, r, (m / r) % p, m % r);
  }

  /** A full number has no leading zero. */
  lemma {:induction false} PrintedFirst(v: nat, radix: nat, n: nat)
    requires 2 <= radix <= 36 && n > 0 && Pow(radix, n - 1) <= v < Pow(radix, n)
    ensures Printed(v, radix, n)[0] != '0'
    decreases n
  {
    DigitOf(v, radix);
    if n == 1 {
      PowOne(radix);
      DivUnique(v, radix, 0, v);
      ToDigitChar(v);
      PrintedStep(v, radix, 1);
    } else {
      PrintedStep(v, radix, n);
      DivIs(v, radix);
      MulCancel(v / radix, Pow(radix, n - 1), radix);
      Assoc(radix, Pow(radix, n - 1), 1);
      if v / radix < Pow(radix, n - 2) {
        MulMono(v / radix + 1, Pow(radix, n - 2), radix);
        Distrib(radix, v / radix, 1);
        Assoc(radix, Pow(radix, n - 2), 1);
      }
      PrintedFirst(v / radix, radix, n - 1);
    }
  }

}

module DigitOutput {
  import opened Arithmetic
  import opened Limbs
  import opened LimbBits
  import opened Rounding
  import opened Logarithms
  import opened Powers
  import opened Bignums
  import opened DigitStrings

  /** radix_base_table, for radix 2 to 36; zero stands for 2^32. */
  const radixBaseTable: seq<Limb> :=
    [0x00000000, 0xcfd41b91, 0x00000000, 0x48c27395, 0x81bf1000, 0x75db9c97, 0x40000000, 0xcfd41b91,
     0x3b9aca00, 0x8c8b6d2b, 0x19a10000, 0x309f1021, 0x57f6c100, 0x98c29b81, 0x00000000, 0x18754571,
     0x247dbc80, 0x3547667b, 0x4c4b4000, 0x6b5a6e1d, 0x94ace180, 0xcaf18367, 0x0b640000, 0x0e8d4a51,
     0x1269ae40, 0x17179149, 0x1cb91000, 0x23744899, 0x2b73a840, 0x34e63b41, 0x40000000, 0x4cfa3cc1,
     0x5c13d840, 0x6d91b519, 0x81bf1000]

  function RadixBase(radix: nat): Limb
    requires 2 <= radix <= 36
  {
    radixBaseTable[radix - 2]
  }

  /** The multiplier that a table entry stands for. */
  function BaseOf(entry: Limb): nat { if entry == 0 then BASE else entry }

  lemma Bases2To7()
    ensures Pow(2, 32) == BASE && Pow(3, 20) == 0xcfd41b91 && Pow(4, 16) == BASE && Pow(5, 13) == 0x48c27395
    ensures Pow(6, 12) == 0x81bf1000 && Pow(7, 11) == 0x75db9c97
  {
    BaseIsPow();
    assert Pow(3, 10) == 59049;
    PowAdd(3, 10, 10);
    assert Pow(4, 8) == 65536;
    PowAdd(4, 8, 8);
  }

  lemma Bases8To16()
    ensures Pow(8, 10) == 0x40000000 && Pow(9, 10) == 0xcfd41b91 && Pow(10, 9) == 0x3b9aca00 && Pow(11, 9) == 0x8c8b6d2b
    ensures Pow(12, 8) == 0x19a10000 && Pow(13, 8) == 0x309f1021 && Pow(14, 8) == 0x57f6c100 && Pow(15, 8) == 0x98c29b81
    ensures Pow(16, 8) == BASE
  {
  }

  lemma Bases17To25()
    ensures Pow(17, 7) == 0x18754571 && Pow(18, 7) == 0x247dbc80 && Pow(19, 7) == 0x3547667b && Pow(20, 7) == 0x4c4b4000
    ensures Pow(21, 7) == 0x6b5a6e1d && Pow(22, 7) == 0x94ace180 && Pow(23, 7) == 0xcaf18367 && Pow(24, 6) == 0x0b640000
    ensures Pow(25, 6) == 0x0e8d4a51
  {
  }

  lemma Bases26To36()
    ensures Pow(26, 6) == 0x1269ae40 && Pow(27, 6) == 0x17179149 && Pow(28, 6) == 0x1cb91000 && Pow(29, 6) == 0x23744899
    ensures Pow(30, 6) == 0x2b73a840 && Pow(31, 6) == 0x34e63b41 && Pow(32, 6) == 0x40000000 && Pow(33, 6) == 0x4cfa3cc1
    ensures Pow(34, 6) == 0x5c13d840 && Pow(35, 6) == 0x6d91b519 && Pow(36, 6) == 0x81bf1000
  {
  }

  /** radix_base_table holds the powers that digits_per_limb_table promises. */
  lemma RadixBaseIs(radix: nat)
    requires 2 <= radix <= 36
    ensures BaseOf(RadixBase(radix)) == Pow(radix, DigitsPerLimb(radix))
    ensures RadixBase(radix) == 0 ==> PowerOfTwo(radix)
  {
    hide Pow;
    Bases2To7();
    Bases8To16();
    Bases17To25();
    Bases26To36();
  }

  /** Writes the `len` lowest digits of `n0`. (limb_to_a, u32toa_len and u64toa_bin_len, which only differ in how they divide.) */
  method LimbToA(buf: array<char>, off: nat, n0: nat, radix: nat, len: nat)
    requires 2 <= radix <= 36 && off + len <= buf.Length
    modifies buf
    ensures buf[..off] == old(buf[..off]) && buf[off..off + len] == Printed(n0, radix, len) && buf[off + len..] == old(buf[off + len..])
  {
    hide Printed, DigitChar;
    var n, i := n0, len;
    while i > 0
      invariant 0 <= i <= len && 0 <= n && buf[..off + i] == old(buf[..off + i]) && buf[off + len..] == old(buf[off + len..])
      invariant Printed(n0, radix, len) == Printed(n, radix, i) + buf[off + i..off + len]
    {
      i := i - 1;
      DigitOf(n, radix);
      PrintedStep(n, radix, i + 1);
      ghost var rest := buf[off + i + 1..off + len];
      buf[off + i] := DigitChar(n % radix);
      assert buf[off + i..off + len] == [buf[off + i]] + rest;
      n := n / radix;
    }
  }

  /** The digits with the point in place; no point behind the last digit. */
  function WithDot(s: seq<char>, dot: nat): seq<char>
    requires dot <= |s|
  {
    if dot == |s| then s else s[..dot] + ['.'] + s[dot..]
  }

  /** What the chunk loops keep: the `n - nd` lowest digits are written. */
  ghost predicate Written(buf: seq<char>, was: seq<char>, off: nat, n: nat, nd: int, v: nat, radix: nat)
  {
    0 <= nd <= n && 2 <= radix <= 36 && off + n <= |buf| == |was| &&
    buf[..off] == was[..off] && buf[off + nd..off + n] == Printed(v, radix, n - nd)
  }

  lemma WrittenNext(t: seq<char>, u: seq<char>, was: seq<char>, off: nat, n: nat, nd: nat, k: nat, v: nat, w: nat, radix: nat)
    requires Written(t, was, off, n, nd, v, radix) && k <= nd && |u| == |t|
    requires Pow(radix, n - nd) > 0 && w == v / Pow(radix, n - nd)
    requires u[..off + nd - k] == t[..off + nd - k] && u[off + nd - k..off + nd] == Printed(w, radix, k) && u[off + nd..] == t[off + nd..]
    ensures Written(u, was, off, n, nd - k, v, radix)
  {
    hide Printed, Pow;
    PrintedSplit(v, radix, k, n - nd);
    assert u[off + nd - k..off + n] == u[off + nd - k..off + nd] + u[off + nd..off + n];
    assert u[off + nd..off + n] == u[off + nd..][..n - nd] == t[off + nd..][..n - nd] == t[off + nd..off + n];
    assert u[..off] == u[..off + nd - k][..off] == t[..off + nd - k][..off] == t[..off];
  }

  /** The lowest limb holds the lowest digits in a radix that is a power of two. */
  lemma LowLimbDigits(x: Limb, rest: nat, radix: nat, k: nat)
    requires 2 <= radix <= 36 && PowerOfTwo(radix) && k <= DigitsPerLimb(radix)
    ensures Printed(x, radix, k) == Printed(x + BASE * rest, radix, k)
  {
    hide Pow, Printed;
    var b := BoundsOf(radix).q1;
    BinaryRadix(radix);
    PowMul(2, b, k);
    BinaryDigits(radix);
    Assoc(k, b, 1);
    MulMono(k, DigitsPerLimb(radix), b);
    SplitBase(b * k);
    Multiple(x, rest, Pow(2, b * k), Pow(2, 32 - b * k));
    PrintedMod(x + BASE * rest, radix, k, x);
  }

  lemma BinaryDigits(radix: nat)
    requires 2 <= radix <= 36 && PowerOfTwo(radix)
    ensures DigitsPerLimb(radix) * BoundsOf(radix).q1 <= 32 && BoundsOf(radix).q1 > 0
  {
  }

  lemma Multiple(x: nat, rest: nat, p: nat, q: nat)
    requires p > 0 && p * q == BASE
    ensures x % p == (x + BASE * rest) % p
  {
    DivIs(x, p);
    Assoc(p, q, rest);
    Assoc(q, rest, p);
    Assoc(p, q * rest, 1);
    Distrib(p, x / p, q * rest);
    DivUnique(x + BASE * rest, p, x / p + q * rest, x % p);
  }

  lemma LowestLimb(a: Bignum)
    requires a.Valid()
    ensures a.Num() == a.tab[0] + BASE * Value(a.tab[1..a.len])
  {
    hide Value;
    assert a.tab[..a.len] == [a.tab[0]] + a.tab[1..a.len];
    ValueCons(a.tab[0], a.tab[1..a.len]);
  }

  /** Moving on by one chunk. */
  lemma NextQuotient(v: nat, radix: nat, j: nat, k: nat)
    requires radix > 0
    ensures Pow(radix, j) > 0 && Pow(radix, k) > 0 && Pow(radix, j + k) > 0
    ensures v / Pow(radix, j) / Pow(radix, k) == v / Pow(radix, j + k)
  {
    hide Pow;
    PowPositive(radix, j);
    PowPositive(radix, k);
    PowPositive(radix, j + k);
    PowAdd(radix, j, k);
    DivDiv(v, Pow(radix, j), Pow(radix, k));
  }

  lemma NoneWritten(was: seq<char>, off: nat, n: nat, v: nat, radix: nat)
    requires 2 <= radix <= 36 && off + n <= |was|
    ensures Written(was, was, off, n, n, v, radix) && Pow(radix, 0) == 1 && v / 1 == v
  {
  }

  /** The digits in a radix that is a power of two: the chunks are shifted out. */
  method BinaryChunks(buf: array<char>, off: nat, a: Bignum, radix: nat, n: nat)
    requires a.Valid() && 2 <= radix <= 36 && PowerOfTwo(radix) && off + n <= buf.Length
    modifies buf, a`len, a.tab
    ensures Written(buf[..], old(buf[..]), off, n, 0, old(a.Num()), radix)
  {
    hide Pow, Printed, Written, PowerOfTwo, DigitsPerLimb;
    ghost var v, was := a.Num(), buf[..];
    var radixBits := RadixBitsOf(radix);
    var d := DigitsPerLimb(radix);
    DigitsFit(radix);
    var nd := n;
    NoneWritten(was, off, n, v, radix);
    while true
      invariant 0 <= nd <= n && a.Valid() && Written(buf[..], was, off, n, nd, v, radix) && buf.Length == |was|
      invariant Pow(radix, n - nd) > 0 && a.Num() == v / Pow(radix, n - nd)
      decreases nd
    {
      var k := if nd < d then nd else d;
      ghost var t := buf[..];
      LowChunk(buf, off + nd - k, a, radix, k);
      WrittenStep(t, buf[..], off, nd, k);
      WrittenNext(t, buf[..], was, off, n, nd, k, v, a.Num(), radix);
      nd := nd - k;
      if nd == 0 {
        break;
      }
      DropChunk(a, radix, d, radixBits);
      NextQuotient(v, radix, n - nd - k, k);
    }
  }

  /** Writes the digits in the lowest limb. */
  method LowChunk(buf: array<char>, pos: nat, a: Bignum, radix: nat, k: nat)
    requires a.Valid() && 2 <= radix <= 36 && PowerOfTwo(radix) && k <= DigitsPerLimb(radix) && pos + k <= buf.Length
    modifies buf
    ensures buf[..pos] == old(buf[..pos]) && buf[pos..pos + k] == Printed(a.Num(), radix, k) && buf[pos + k..] == old(buf[pos + k..])
  {
    hide Printed, Value;
    LowestLimb(a);
    LowLimbDigits(a.tab[0], Value(a.tab[1..a.len]), radix, k);
    LimbToA(buf, pos, a.tab[0], radix, k);
  }

  /** Shifts one chunk of digits out. */
  method DropChunk(a: Bignum, ghost radix: nat, d: nat, radixBits: nat)
    requires a.Valid() && radix == Pow(2, radixBits) && d > 0 && radixBits > 0
    modifies a`len, a.tab
    ensures a.Valid() && Pow(radix, d) > 0 && a.Num() == old(a.Num()) / Pow(radix, d)
  {
    hide Pow, IsRound;
    MulNonneg(d, radixBits);
    a.ShrRound(d * radixBits, TowardZero);
    ChunkShift(old(a.Num()), a.Num(), radix, d, radixBits);
  }

  lemma WrittenStep(t: seq<char>, u: seq<char>, off: nat, nd: nat, k: nat)
    requires k <= nd && off + nd <= |t| == |u| && u[..off + nd - k] == t[..off + nd - k] && u[off + nd - k + k..] == t[off + nd - k + k..]
    ensures u[off + nd..] == t[off + nd..] && off + nd - k + k == off + nd
  {
  }

  function RadixBitsOf(radix: nat): (k: nat)
    requires 2 <= radix <= 36 && PowerOfTwo(radix)
    ensures k > 0 && radix == Pow(2, k)
  {
    Clz32Normalises(radix);
    BinaryRadix(radix);
    BinaryClz(radix);
    31 - Clz32(radix)
  }

  lemma BinaryClz(radix: nat)
    requires 2 <= radix <= 36 && PowerOfTwo(radix)
    ensures 31 - Clz32(radix) == BoundsOf(radix).q1
  {
    hide Clz32, Pow;
    var b := BoundsOf(radix).q1;
    BinaryRadix(radix);
    PowAdd(2, b, 31 - b);
    HalfLimb();
    Clz32Is(radix, 31 - b);
  }

  lemma ChunkShift(w: nat, w': nat, radix: nat, d: nat, b: nat)
    requires radix == Pow(2, b) && d > 0 && b > 0 && (d * b > 0 ==> IsRound(w', w, Pow(2, d * b), TowardZero))
    ensures Pow(radix, d) > 0 && w' == w / Pow(radix, d)
  {
    hide Pow;
    MulLess(b, 0, d);
    PowMul(2, b, d);
    Assoc(b, d, 1);
    PowPositive(2, d * b);
    DivUnique(w, Pow(2, d * b), w', w - w' * Pow(2, d * b));
  }

  /** The digits in any other radix: the chunks are divided out. */
  method DivisionChunks(buf: array<char>, off: nat, a: Bignum, radix: nat, n: nat)
    requires a.Valid() && 2 <= radix <= 36 && !PowerOfTwo(radix) && off + n <= buf.Length
    modifies buf, a`len, a.tab
    ensures Written(buf[..], old(buf[..]), off, n, 0, old(a.Num()), radix)
  {
    hide Pow, Printed, Written, Value, RadixBase, DigitsPerLimb;
    ghost var v, was := a.Num(), buf[..];
    var d := DigitsPerLimb(radix);
    DigitsFit(radix);
    RadixBaseIs(radix);
    PowPositive(radix, d);
    var nd := n;
    NoneWritten(was, off, n, v, radix);
    while nd != 0
      invariant 0 <= nd <= n && a.Valid() && Written(buf[..], was, off, n, nd, v, radix) && buf.Length == |was|
      invariant Pow(radix, n - nd) > 0 && (nd > 0 ==> a.Num() == v / Pow(radix, n - nd))
      decreases nd
    {
      var k := if nd < d then nd else d;
      ghost var t, w := buf[..], a.Num();
      var r := MpDiv1(a.tab, a.len, RadixBase(radix), 0);
      Remainder(w, a.Num(), r, radix, d, k);
      a.Renorm();
      LimbToA(buf, off + nd - k, r, radix, k);
      WrittenStep(t, buf[..], off, nd, k);
      WrittenNext(t, buf[..], was, off, n, nd, k, v, w, radix);
      nd := nd - k;
      NextQuotient(v, radix, n - nd - k, k);
    }
  }

  lemma Remainder(w: nat, q: nat, r: nat, radix: nat, d: nat, k: nat)
    requires 2 <= radix <= 36 && w + 0 == q * Pow(radix, d) + r && r < Pow(radix, d) && k <= d
    ensures Pow(radix, d) > 0 && q == w / Pow(radix, d) && Printed(r, radix, k) == Printed(w, radix, k)
  {
    hide Pow, Printed;
    PowPositive(radix, d);
    PowPositive(radix, k);
    PowAdd(radix, k, d - k);
    DivUnique(w, Pow(radix, d), q, r);
    Assoc(Pow(radix, k), Pow(radix, d - k), q);
    RemainderDigits(w, q, r, Pow(radix, k), Pow(radix, d - k), Pow(radix, d));
    PrintedMod(w, radix, k, r);
  }

  lemma RemainderDigits(w: nat, q: nat, r: nat, p: nat, s: nat, ps: nat)
    requires p > 0 && ps == p * s && w == q * ps + r
    ensures r % p == w % p
  {
    DivIs(r, p);
    Assoc(q, p, s);
    Assoc(q, s, p);
    Assoc(p, s, 1);
    Distrib(p, r / p, q * s);
    DivUnique(w, p, r / p + q * s, r % p);
  }

  /** output_digits: the digits of the number, with the point behind the first `dotPos` of them. */
  method OutputDigits(buf: array<char>, off: nat, a: Bignum, radix: nat, nDigits: nat, dotPos: nat) returns (len: nat)
    requires a.Valid() && 2 <= radix <= 36 && dotPos <= nDigits && off + nDigits + 1 <= buf.Length
    modifies buf, a`len, a.tab
    ensures len == |WithDot(Printed(old(a.Num()), radix, nDigits), dotPos)| && off + len <= buf.Length
    ensures buf[..off] == old(buf[..off]) && buf[off..off + len] == WithDot(Printed(old(a.Num()), radix, nDigits), dotPos)
  {
    hide Printed, WithDot;
    DotLength(old(a.Num()), radix, nDigits, dotPos);
    if PowerOfTwo(radix) {
      BinaryChunks(buf, off, a, radix, nDigits);
    } else {
      DivisionChunks(buf, off, a, radix, nDigits);
    }
    len := nDigits;
    if dotPos != nDigits {
      DotInserted(buf[..], off, dotPos, nDigits, Printed(old(a.Num()), radix, nDigits));
      InsertDot(buf, off + dotPos, off + nDigits);
      len := len + 1;
    }
  }

  lemma DotLength(v: nat, radix: nat, n: nat, dot: nat)
    requires 2 <= radix <= 36 && dot <= n
    ensures |WithDot(Printed(v, radix, n), dot)| == if dot == n then n else n + 1
    ensures dot == n ==> WithDot(Printed(v, radix, n), dot) == Printed(v, radix, n)
  {
    hide Printed;
  }

  /** Makes room for the point. */
  method InsertDot(buf: array<char>, pos: nat, end: nat)
    requires pos <= end < buf.Length
    modifies buf
    ensures buf[..] == old(buf[..pos] + ['.'] + buf[pos..end] + buf[end + 1..])
  {
    forall i | pos <= i < end {
      buf[i + 1] := buf[i];
    }
    buf[pos] := '.';
  }

  lemma DotInserted(s: seq<char>, off: nat, dot: nat, n: nat, digits: seq<char>)
    requires off + n < |s| && dot < n && s[off..off + n] == digits
    ensures var t := s[..off + dot] + ['.'] + s[off + dot..off + n] + s[off + n + 1..];
            |t| == |s| && t[..off] == s[..off] && t[off..off + n + 1] == WithDot(digits, dot)
  {
    assert digits[..dot] == s[off..off + dot] && digits[dot..] == s[off + dot..off + n];
  }
}
