// js_atod: reading the digits of a number, and rounding what they denote to binary64.
module NumberSyntax {
  import opened Arithmetic
  import opened DigitStrings

  /** The character at a position; the string ends with a NUL. */
  function At(s: seq<char>, i: nat): char { if i < |s| then s[i] else '\0' }

  predicate IsDigit(c: char, radix: nat) { ToDigit(c) < radix }

  /** Where the run of digits from `i` ends. */
  function DigitEnd(s: seq<char>, i: nat, radix: nat): (e: nat)
    ensures i <= e && (e <= |s| || e == i)
    decreases |s| - i
  {
    if i < |s| && IsDigit(s[i], radix) then DigitEnd(s, i + 1, radix) else i
  }

  lemma {:induction false} DigitEndIs(s: seq<char>, i: nat, e: nat, radix: nat)
    requires i <= e <= |s| && AllDigits(s[i..e], radix) && (e < |s| ==> !IsDigit(s[e], radix))
    ensures DigitEnd(s, i, radix) == e
    decreases e - i
  {
    if i < e {
      assert s[i..e][0] == s[i];
      assert s[i + 1..e] == s[i..e][1..];
      DigitEndIs(s, i + 1, e, radix);
    }
  }

  lemma {:induction false} DigitRun(s: seq<char>, i: nat, radix: nat, k: nat)
    requires i <= k < DigitEnd(s, i, radix)
    ensures k < |s| && IsDigit(s[k], radix)
    decreases |s| - i
  {
    if i < k {
      DigitRun(s, i + 1, radix, k);
    }
  }

  lemma {:induction false} DigitStop(s: seq<char>, i: nat, radix: nat)
    requires radix <= 36
    ensures !IsDigit(At(s, DigitEnd(s, i, radix)), radix)
    decreases |s| - i
  {
    if i < |s| && IsDigit(s[i], radix) {
      DigitStop(s, i + 1, radix);
    }
  }

  /** The digits of a number, how many of them stand before the point, and where the next character is. */
  datatype Mantissa = Mantissa(digits: seq<char>, point: nat, end: nat)

  predicate HasDot(s: seq<char>, p0: nat, start: nat, radix: nat)
  {
    var e := DigitEnd(s, p0, radix);
    At(s, e) == '.' && (e > start || IsDigit(At(s, e + 1), radix))
  }

  /** Digits, at most one point among them; a point comes first only if a digit follows. */
  function Scan(s: seq<char>, p0: nat, start: nat, radix: nat): (m: Mantissa)
    requires p0 <= |s|
    ensures m.point <= |m.digits|
  {
    var e := DigitEnd(s, p0, radix);
    if HasDot(s, p0, start, radix) then
      var f := DigitEnd(s, e + 1, radix);
      Mantissa(s[p0..e] + s[e + 1..f], e - p0, f)
    else Mantissa(s[p0..e], e - p0, e)
  }

  function LeadingZeros(digits: seq<char>): (z: nat)
    ensures z <= |digits| && (forall k :: 0 <= k < z ==> digits[k] == '0') && (z < |digits| ==> digits[z] != '0')
  {
    if digits != [] && digits[0] == '0' then LeadingZeros(digits[1..]) + 1 else 0
  }

  lemma {:induction false} LeadingZerosIs(digits: seq<char>, z: nat)
    requires z <= |digits| && (forall k :: 0 <= k < z ==> digits[k] == '0') && (z < |digits| ==> digits[z] != '0')
    ensures LeadingZeros(digits) == z
  {
    if digits != [] && digits[0] == '0' {
      LeadingZerosIs(digits[1..], z - 1);
    }
  }

  /** The digits from the first that is not zero. */
  function Significant(digits: seq<char>): seq<char> { digits[LeadingZeros(digits)..] }

  lemma {:induction false} ReadZeros(s: seq<char>, radix: nat)
    requires forall k :: 0 <= k < |s| ==> s[k] == '0'
    ensures Read(s, radix) == 0
  {
    if s != [] {
      ReadZeros(s[..|s| - 1], radix);
    }
  }

  lemma ReadSignificant(digits: seq<char>, radix: nat)
    ensures Read(digits, radix) == Read(Significant(digits), radix)
  {
    hide Read;
    var z := LeadingZeros(digits);
    assert digits == digits[..z] + digits[z..];
    ReadAppend(digits[..z], digits[z..], radix);
    ReadZeros(digits[..z], radix);
  }

  // ---------- the cursor ----------

  /** Position `p` of the string is where digit number `pos` is expected, with the point seen (`dot >= 0`) or not. */
  predicate Place(s: seq<char>, p0: nat, start: nat, radix: nat, p: nat, pos: nat, dot: int)
  {
    p0 <= |s| && p0 >= start &&
    var e := DigitEnd(s, p0, radix);
    if dot < 0 then p == p0 + pos && p <= e && dot == -1
    else HasDot(s, p0, start, radix) && dot == e - p0 && pos >= dot && p == p0 + pos + 1 && p <= DigitEnd(s, e + 1, radix)
  }

  lemma PlaceStart(s: seq<char>, p0: nat, start: nat, radix: nat)
    requires start <= p0 <= |s|
    ensures Place(s, p0, start, radix, p0, 0, -1)
  {
  }

  /** A point at the cursor is the point of the number, unless that has been seen. */
  lemma PlaceDot(s: seq<char>, p0: nat, start: nat, radix: nat, p: nat, pos: nat, dot: int)
    requires radix <= 36 && Place(s, p0, start, radix, p, pos, dot) && At(s, p) == '.' && (p > start || IsDigit(At(s, p + 1), radix))
    ensures dot < 0 ==> Place(s, p0, start, radix, p + 1, pos, pos) && pos == Scan(s, p0, start, radix).point
    ensures dot >= 0 ==> PlaceEnd(s, p0, start, radix, p, pos, dot)
  {
    hide DigitEnd;
    var e := DigitEnd(s, p0, radix);
    if dot < 0 && p < e {
      DigitRun(s, p0, radix, p);
    } else if dot >= 0 {
      if p < DigitEnd(s, e + 1, radix) {
        DigitRun(s, e + 1, radix, p);
      }
    }
  }

  /** All digits have been read. */
  predicate PlaceEnd(s: seq<char>, p0: nat, start: nat, radix: nat, p: nat, pos: nat, dot: int)
  {
    p0 <= |s| &&
    var m := Scan(s, p0, start, radix);
    p == m.end && pos == |m.digits| && (dot >= 0 ==> dot == m.point) && (dot < 0 ==> m.point == pos)
  }

  /** What stands at the cursor when it is not the point. */
  lemma PlaceNext(s: seq<char>, p0: nat, start: nat, radix: nat, p: nat, pos: nat, dot: int)
    requires radix <= 36 && Place(s, p0, start, radix, p, pos, dot)
    requires dot < 0 ==> !(At(s, p) == '.' && (p > start || IsDigit(At(s, p + 1), radix)))
    ensures var m := Scan(s, p0, start, radix);
            if IsDigit(At(s, p), radix) then
              pos < |m.digits| && At(s, p) == m.digits[pos] && Place(s, p0, start, radix, p + 1, pos + 1, dot)
            else PlaceEnd(s, p0, start, radix, p, pos, dot)
  {
    hide DigitEnd;
    var e := DigitEnd(s, p0, radix);
    DigitStop(s, p0, radix);
    DigitEndBound(s, p0, radix);
    if dot < 0 {
      if p < e {
        DigitRun(s, p0, radix, p);
        assert s[p0..e][pos] == s[p];
      }
    } else {
      var f := DigitEnd(s, e + 1, radix);
      DigitStop(s, e + 1, radix);
      DigitEndBound(s, e + 1, radix);
      if p < f {
        DigitRun(s, e + 1, radix, p);
        assert (s[p0..e] + s[e + 1..f])[pos] == s[p];
      }
    }
  }

  lemma DigitEndBound(s: seq<char>, i: nat, radix: nat)
    ensures DigitEnd(s, i, radix) >= i && (i <= |s| ==> DigitEnd(s, i, radix) <= |s|)
  {
  }
}

module NumberReading {
  import opened Arithmetic
  import opened Limbs
  import opened Logarithms
  import opened Powers
  import opened Bignums
  import opened DigitStrings
  import opened DigitOutput
  import opened NumberSyntax

  /** atod_max_digits_table, for radix 2 to 36. */
  const atodMaxDigitsTable: seq<nat> :=
    [64, 80, 32, 55, 49, 45, 21, 40, 38, 37, 35, 34, 33, 32, 16, 31, 30, 30, 29, 29, 28, 28, 27, 27, 27,
     26, 26, 26, 26, 25, 12, 25, 25, 24, 24]

  function AtodMaxDigits(radix: nat): (n: nat)
    requires 2 <= radix <= 36
    ensures n >= 12
  {
    atodMaxDigitsTable[radix - 2]
  }

  const DBIGNUM_LEN_MAX := 52

  /** The digits kept so far: the whole limbs are in the bignum, the rest in `cur`. */
  ghost predicate Kept(tmp0: Bignum, radix: nat, cur: nat, lc: nat, v: nat)
    reads tmp0, tmp0.tab
  {
    tmp0.Valid() && tmp0.Normal() && 2 <= radix <= 36 && lc < DigitsPerLimb(radix) && cur < Pow(radix, lc) &&
    v == tmp0.Num() * Pow(radix, lc) + cur
  }

  lemma Grown(n: nat, p: nat, rp: nat, cur: nat, r: nat, c: nat)
    requires rp == r * p && cur < p && c < r
    ensures cur * r + c < rp && (n * p + cur) * r + c == n * rp + (cur * r + c)
  {
    MulMono(cur + 1, p, r);
    Distrib(r, cur, 1);
    Distrib(r, n * p, cur);
    Assoc(n, p, r);
    Assoc(p, r, 1);
  }

  /** Takes in one digit: a full limb is moved to the bignum. */
  method PushDigit(tmp0: Bignum, radix: nat, cur0: nat, lc0: nat, c: nat, ghost v: nat) returns (cur: nat, lc: nat)
    requires Kept(tmp0, radix, cur0, lc0, v) && c < radix && tmp0.len + 2 <= tmp0.tab.Length
    modifies tmp0`len, tmp0.tab
    ensures Kept(tmp0, radix, cur, lc, v * radix + c)
    ensures if lc0 + 1 == DigitsPerLimb(radix) then lc == 0 && tmp0.len <= old(tmp0.len) + 1 else lc == lc0 + 1 && tmp0.len == old(tmp0.len)
  {
    hide Pow, DigitsPerLimb, RadixBase;
    PowPositive(radix, lc0);
    PowSucc(radix, lc0);
    Grown(tmp0.Num(), Pow(radix, lc0), Pow(radix, lc0 + 1), cur0, radix, c);
    cur := cur0 * radix + c;
    lc := lc0 + 1;
    DigitsFit(radix);
    if lc == DigitsPerLimb(radix) {
      RadixBaseIs(radix);
      tmp0.MulBase(RadixBase(radix), cur);
      cur := 0;
      lc := 0;
      PowOne(radix);
    }
  }

  /** Moves the rest to the bignum. */
  method Flush(tmp0: Bignum, radix: nat, cur: nat, lc: nat, ghost v: nat)
    requires Kept(tmp0, radix, cur, lc, v) && tmp0.len + 2 <= tmp0.tab.Length
    modifies tmp0`len, tmp0.tab
    ensures tmp0.Valid() && tmp0.Normal() && tmp0.Num() == v && tmp0.len <= old(tmp0.len) + 1
  {
    hide Pow, DigitsPerLimb;
    PowOne(radix);
    if lc != 0 {
      DigitsFit(radix);
      PowPositive(radix, lc);
      PowStrict(radix, lc, DigitsPerLimb(radix));
      DigitsSmall(radix);
      var base := PowUi(radix, lc);
      DivUnique(Pow(radix, lc), TWO64, 0, Pow(radix, lc));
      tmp0.MulBase(base, cur);
    }
  }

  /** The test for the point, in both loops over the digits. */
  method TestDot(s: seq<char>, ghost p0: nat, start: nat, radix: nat, p0': nat, pos: nat, dot0: int) returns (p: nat, dot: int, stop: bool)
    requires 2 <= radix <= 36 && Place(s, p0, start, radix, p0', pos, dot0)
    ensures stop ==> PlaceEnd(s, p0, start, radix, p, pos, dot)
    ensures Place(s, p0, start, radix, p, pos, dot)
    ensures !stop && dot < 0 ==> !(At(s, p) == '.' && (p > start || IsDigit(At(s, p + 1), radix)))
  {
    hide DigitEnd, Scan;
    p, dot, stop := p0', dot0, false;
    if At(s, p) == '.' && (p > start || IsDigit(At(s, p + 1), radix)) {
      PlaceDot(s, p0, start, radix, p, pos, dot);
      if dot >= 0 {
        stop := true;
        return;
      }
      dot := pos;
      p := p + 1;
    }
  }

  /** The loop over leading zeros. */
  method SkipZeros(s: seq<char>, p0: nat, start: nat, radix: nat) returns (p: nat, pos: nat, dot: int)
    requires 2 <= radix <= 36 && start <= p0 <= |s|
    ensures Place(s, p0, start, radix, p, pos, dot) && pos == LeadingZeros(Scan(s, p0, start, radix).digits)
  {
    hide DigitEnd, Place, LeadingZeros, Scan;
    p, pos, dot := p0, 0, -1;
    PlaceStart(s, p0, start, radix);
    ghost var digits := Scan(s, p0, start, radix).digits;
    while true
      invariant Place(s, p0, start, radix, p, pos, dot) && pos <= |digits| && forall k :: 0 <= k < pos ==> digits[k] == '0'
      decreases |digits| - pos
    {
      var stop;
      p, dot, stop := TestDot(s, p0, start, radix, p, pos, dot);
      if stop {
        LeadingZerosIs(digits, pos);
        break;
      }
      PlaceNext(s, p0, start, radix, p, pos, dot);
      if At(s, p) != '0' {
        LeadingZerosIs(digits, pos);
        break;
      }
      p := p + 1;
      pos := pos + 1;
    }
  }

  /** What is kept of the significant digits. */
  function KeptDigits(digits: seq<char>, radix: nat): nat
    requires 2 <= radix <= 36
  {
    var n := |Significant(digits)|;
    if n < AtodMaxDigits(radix) then n else AtodMaxDigits(radix)
  }

  /** What the loop over the significant digits has read of `sig`: `n` digits, of which at most `max` are kept. */
  ghost predicate Collected(tmp0: Bignum, radix: nat, sig: seq<char>, n: nat, cur: nat, lc: nat, digitCount: nat, extra: bool)
    reads tmp0, tmp0.tab
  {
    n <= |sig| && lc <= digitCount && 2 <= radix <= 36 && digitCount == (if n < AtodMaxDigits(radix) then n else AtodMaxDigits(radix)) &&
    Kept(tmp0, radix, cur, lc, Read(sig[..digitCount], radix)) && tmp0.len <= 1 + (digitCount - lc) / 6 &&
    (extra <==> Read(sig[digitCount..n], radix) != 0)
  }

  lemma CollectedRoom(tmp0: Bignum, radix: nat, sig: seq<char>, n: nat, cur: nat, lc: nat, digitCount: nat, extra: bool)
    requires Collected(tmp0, radix, sig, n, cur, lc, digitCount, extra)
    ensures digitCount <= 80 && tmp0.len <= 14
  {
    hide Kept, Read;
    MaxSmall(radix);
  }

  lemma MaxSmall(radix: nat)
    requires 2 <= radix <= 36
    ensures AtodMaxDigits(radix) <= 80
  {
  }

  lemma CollectedNone(tmp0: Bignum, radix: nat, sig: seq<char>)
    requires tmp0.Valid() && tmp0.Normal() && tmp0.Num() == 0 && tmp0.len == 1 && 2 <= radix <= 36
    ensures Collected(tmp0, radix, sig, 0, 0, 0, 0, false)
  {
    assert sig[..0] == [] && sig[0..0] == [];
    DigitsFit(radix);
    PowOne(radix);
  }

  /** One more digit that is kept. */
  lemma CollectedDigit(tmp0: Bignum, radix: nat, sig: seq<char>, n: nat, cur: nat, lc: nat, digitCount: nat)
    requires n < |sig| && 2 <= radix <= 36 && digitCount == n < AtodMaxDigits(radix) && lc <= n + 1
    requires Kept(tmp0, radix, cur, lc, Read(sig[..n], radix) * radix + ToDigit(sig[n])) && tmp0.len <= 1 + (n + 1 - lc) / 6
    ensures Collected(tmp0, radix, sig, n + 1, cur, lc, digitCount + 1, false)
  {
    hide Kept;
    assert sig[..n + 1] == sig[..n] + [sig[n]] && sig[n + 1..n + 1] == [];
    ReadPush(sig[..n], sig[n], radix);
  }

  /** One more digit that is dropped. */
  lemma CollectedExtra(tmp0: Bignum, radix: nat, sig: seq<char>, n: nat, cur: nat, lc: nat, digitCount: nat, extra: bool)
    requires Collected(tmp0, radix, sig, n, cur, lc, digitCount, extra) && n < |sig| && digitCount >= AtodMaxDigits(radix)
    ensures Collected(tmp0, radix, sig, n + 1, cur, lc, digitCount, extra || ToDigit(sig[n]) != 0)
  {
    hide Kept, Read;
    var k := digitCount;
    assert sig[k..n + 1] == sig[k..n] + [sig[n]];
    ReadPush(sig[k..n], sig[n], radix);
    MulNonneg(Read(sig[k..n], radix), radix);
    if Read(sig[k..n], radix) > 0 {
      MulAtLeast(Read(sig[k..n], radix), radix);
    }
  }

  lemma CollectedFacts(tmp0: Bignum, radix: nat, sig: seq<char>, n: nat, cur: nat, lc: nat, digitCount: nat, extra: bool)
    requires Collected(tmp0, radix, sig, n, cur, lc, digitCount, extra)
    ensures n <= |sig| && digitCount <= n && Kept(tmp0, radix, cur, lc, Read(sig[..digitCount], radix))
    ensures digitCount < AtodMaxDigits(radix) ==> digitCount == n && !extra
    ensures lc <= digitCount && tmp0.len <= 1 + (digitCount - lc) / 6
  {
    hide Kept;
    if digitCount == n {
      assert sig[n..n] == [];
    }
  }

  /** Takes in one significant digit. */
  method Collect(tmp0: Bignum, radix: nat, ghost sig: seq<char>, ghost n: nat, cur0: nat, lc0: nat, count: nat, extra0: bool, c: nat)
    returns (cur: nat, lc: nat, digitCount: nat, extra: bool)
    requires Collected(tmp0, radix, sig, n, cur0, lc0, count, extra0) && n < |sig| && c == ToDigit(sig[n]) < radix
    requires tmp0.tab.Length >= DBIGNUM_LEN_MAX
    modifies tmp0`len, tmp0.tab
    ensures Collected(tmp0, radix, sig, n + 1, cur, lc, digitCount, extra)
  {
    hide Collected, Kept, Read, DigitsPerLimb;
    CollectedRadix(tmp0, radix, sig, n, cur0, lc0, count, extra0);
    CollectedRoom(tmp0, radix, sig, n, cur0, lc0, count, extra0);
    CollectedFacts(tmp0, radix, sig, n, cur0, lc0, count, extra0);
    cur, lc, digitCount, extra := cur0, lc0, count, extra0;
    if digitCount < AtodMaxDigits(radix) {
      LimbsUsed(radix, digitCount, lc);
      cur, lc := PushDigit(tmp0, radix, cur, lc, c, Read(sig[..digitCount], radix));
      CollectedDigit(tmp0, radix, sig, n, cur, lc, digitCount);
      digitCount := digitCount + 1;
    } else {
      CollectedExtra(tmp0, radix, sig, n, cur, lc, digitCount, extra);
      extra := extra || c != 0;
    }
  }

  lemma CollectedRadix(tmp0: Bignum, radix: nat, sig: seq<char>, n: nat, cur: nat, lc: nat, digitCount: nat, extra: bool)
    requires Collected(tmp0, radix, sig, n, cur, lc, digitCount, extra)
    ensures 2 <= radix <= 36
  {
  }

  /** The loops of js_atod over the digits. */
  method ReadMantissa(tmp0: Bignum, s: seq<char>, p0: nat, start: nat, radix: nat)
    returns (p: nat, sigPos: nat, digitCount: nat, dotPos: nat, extra: bool)
    requires 2 <= radix <= 36 && start <= p0 <= |s| && tmp0.Valid() && tmp0.Normal() && tmp0.Num() == 0 && tmp0.len == 1
    requires tmp0.tab.Length >= DBIGNUM_LEN_MAX
    modifies tmp0`len, tmp0.tab
    ensures tmp0.Valid() && tmp0.Normal()
    ensures var m := Scan(s, p0, start, radix);
            p == m.end && sigPos == LeadingZeros(m.digits) && digitCount == KeptDigits(m.digits, radix) && dotPos == m.point &&
            tmp0.Num() == Read(Significant(m.digits)[..digitCount], radix) &&
            (extra <==> Read(Significant(m.digits)[digitCount..], radix) != 0)
  {
    hide DigitEnd, Place, LeadingZeros, Scan, Collected, Kept, Read;
    var pos, dot;
    p, pos, dot := SkipZeros(s, p0, start, radix);
    sigPos := pos;
    ghost var m := Scan(s, p0, start, radix);
    ghost var sig := Significant(m.digits);
    var cur, lc := 0, 0;
    digitCount, extra := 0, false;
    CollectedNone(tmp0, radix, sig);
    while true
      invariant sigPos <= pos && 0 <= cur && 0 <= lc && Place(s, p0, start, radix, p, pos, dot)
      invariant Collected(tmp0, radix, sig, pos - sigPos, cur, lc, digitCount, extra)
      decreases |m.digits| - pos
    {
      CollectedFacts(tmp0, radix, sig, pos - sigPos, cur, lc, digitCount, extra);
      var stop;
      p, dot, stop := TestDot(s, p0, start, radix, p, pos, dot);
      if stop {
        break;
      }
      PlaceNext(s, p0, start, radix, p, pos, dot);
      var c := ToDigit(At(s, p));
      if c >= radix {
        break;
      }
      assert sig[pos - sigPos] == m.digits[pos];
      p := p + 1;
      cur, lc, digitCount, extra := Collect(tmp0, radix, sig, pos - sigPos, cur, lc, digitCount, extra, c);
      pos := pos + 1;
    }
    CollectedFacts(tmp0, radix, sig, pos - sigPos, cur, lc, digitCount, extra);
    CollectedRoom(tmp0, radix, sig, pos - sigPos, cur, lc, digitCount, extra);
    CollectedAll(tmp0, radix, m.digits, pos - sigPos, cur, lc, digitCount, extra);
    dotPos := if dot < 0 then pos else dot;
    Flush(tmp0, radix, cur, lc, Read(sig[..digitCount], radix));
  }

  /** Six digits or more go into each limb. */
  lemma LimbsUsed(radix: nat, n: nat, lc: nat)
    requires 2 <= radix <= 36
    ensures lc + 1 == DigitsPerLimb(radix) && lc <= n ==> 1 + (n - lc) / 6 + 1 <= 1 + (n + 1) / 6
    ensures lc <= n ==> (n + 1 - (lc + 1)) / 6 == (n - lc) / 6
  {
    DigitsFit(radix);
  }

  lemma CollectedAll(tmp0: Bignum, radix: nat, digits: seq<char>, n: nat, cur: nat, lc: nat, digitCount: nat, extra: bool)
    requires Collected(tmp0, radix, Significant(digits), n, cur, lc, digitCount, extra) && n == |Significant(digits)|
    ensures digitCount == KeptDigits(digits, radix) && (extra <==> Read(Significant(digits)[digitCount..], radix) != 0)
  {
    hide Kept, Read;
    assert Significant(digits)[digitCount..n] == Significant(digits)[digitCount..];
  }
}
