// Compressed Unicode tables: linear decoding into a range, and the indexed lookup that agrees with it.
module UnicodeTables {
  import opened Bytecode
  import opened PointSets
  import opened CharRanges

  /** One token of the run-length encoding: its size in bytes and one or two run lengths. */
  datatype Token = Token(size: nat, first: nat, second: nat)

  predicate Complete(table: seq<Byte>, p: nat)
  {
    p < |table| && p + Size(table[p]) <= |table|
  }

  function Size(b: Byte): nat { if b < 0x40 || b >= 0x80 then 1 else if b < 0x60 then 2 else 3 }

  function Word(hi: int, lo: int): int { hi * 256 + lo }

  function TokenAt(table: seq<Byte>, p: nat): (t: Token)
    requires Complete(table, p)
    ensures t.size > 0 && t.first > 0
  {
    var b := table[p];
    if b < 0x40 then Token(1, b / 8 + 1, b % 8 + 1)
    else if b >= 0x80 then Token(1, b - 0x80 + 1, 0)
    else if b < 0x60 then Token(2, Word(b - 0x40, table[p + 1]) + 1, 0)
    else Token(3, Word(Word(b - 0x60, table[p + 1]), table[p + 2]) + 1, 0)
  }

  /** The rest of the table is whole tokens. */
  predicate WholeTokens(table: seq<Byte>, p: nat)
    decreases |table| - p
  {
    p >= |table| || (Complete(table, p) && WholeTokens(table, p + TokenAt(table, p).size))
  }

  /** The parity after a token. */
  function Flip(t: Token, bit: bool): bool { if t.second > 0 then bit else !bit }

  /** What the table says of `x`, reading it from byte `p`, which begins a run of parity `bit` at `code`. */
  predicate Member(table: seq<Byte>, p: nat, code: nat, bit: bool, x: int)
    requires WholeTokens(table, p)
    decreases |table| - p
  {
    p < |table| &&
    var t := TokenAt(table, p);
    if x < code + t.first then bit
    else if x < code + t.first + t.second then !bit
    else Member(table, p + t.size, code + t.first + t.second, Flip(t, bit), x)
  }

  /** Where the runs end. */
  function Total(table: seq<Byte>, p: nat, code: nat): nat
    requires WholeTokens(table, p)
    decreases |table| - p
  {
    if p >= |table| then code
    else var t := TokenAt(table, p); Total(table, p + t.size, code + t.first + t.second)
  }

  /** Reading on from `p` reaches byte `q` as the beginning of a run of non-members at `target`. */
  predicate Boundary(table: seq<Byte>, p: nat, code: nat, bit: bool, q: nat, target: nat)
    requires WholeTokens(table, p)
    decreases |table| - p
  {
    if p >= q || p >= |table| then p == q && code == target && !bit
    else var t := TokenAt(table, p); Boundary(table, p + t.size, code + t.first + t.second, Flip(t, bit), q, target)
  }

  lemma {:induction false} FromBoundary(table: seq<Byte>, p: nat, code: nat, bit: bool, q: nat, target: nat, x: int)
    requires WholeTokens(table, p) && Boundary(table, p, code, bit, q, target) && target <= x
    ensures WholeTokens(table, q) && code <= target
    ensures Member(table, p, code, bit, x) == Member(table, q, target, false, x)
    ensures Total(table, p, code) == Total(table, q, target)
    decreases |table| - p
  {
    if p < q && p < |table| {
      var t := TokenAt(table, p);
      FromBoundary(table, p + t.size, code + t.first + t.second, Flip(t, bit), q, target, x);
    }
  }

  lemma {:induction false} BeyondTotal(table: seq<Byte>, p: nat, code: nat, bit: bool, x: int)
    requires WholeTokens(table, p) && Total(table, p, code) <= x
    ensures !Member(table, p, code, bit, x) && code <= Total(table, p, code)
    decreases |table| - p
  {
    if p < |table| {
      var t := TokenAt(table, p);
      BeyondTotal(table, p + t.size, code + t.first + t.second, Flip(t, bit), x);
    }
  }

  // ---------- linear decoding ----------

  /** The intervals collected so far are the members below `code`. */
  ghost predicate Decoded(table: seq<Byte>, p: nat, code: nat, bit: bool, points: seq<int>)
  {
    WholeTokens(table, 0) && WholeTokens(table, p) && Canonical(points) && UpTo(points, code) &&
    (bit && points != [] ==> points[|points| - 1] < code) &&
    forall x :: 0 <= x ==> (Member(table, 0, 0, false, x) <==> if x < code then In(points, x) else Member(table, p, code, bit, x))
  }

  /** The intervals after a run that ends at `c`. */
  function Extended(points: seq<int>, bit: bool, c0: int, c: int): seq<int>
  {
    if bit then points + [c0, c] else points
  }

  lemma ExtendedIn(points: seq<int>, bit: bool, c0: int, c: int, x: int)
    requires Canonical(points) && UpTo(points, c0) && (bit && points != [] ==> points[|points| - 1] < c0) && c0 < c
    ensures var more := Extended(points, bit, c0, c);
            Canonical(more) && UpTo(more, c) && (!bit && more != [] ==> more[|more| - 1] < c) &&
            (x < c0 ==> In(more, x) == In(points, x)) && (c0 <= x < c ==> In(more, x) == bit)
  {
    if bit {
      BelowAppend(points, [c0, c], x);
      BelowTwo(c0, c, x);
    }
    if c0 <= x {
      BelowAll(points, x);
    }
  }

  lemma DecodedStart(table: seq<Byte>)
    requires WholeTokens(table, 0)
    ensures Decoded(table, 0, 0, false, [])
  {
  }

  lemma DecodedNext(table: seq<Byte>, p: nat, code: nat, bit: bool, points: seq<int>)
    requires Decoded(table, p, code, bit, points) && Complete(table, p)
    ensures var t := TokenAt(table, p);
            var one := Extended(points, bit, code, code + t.first);
            var more := if t.second > 0 then Extended(one, !bit, code + t.first, code + t.first + t.second) else one;
            Decoded(table, p + t.size, code + t.first + t.second, Flip(t, bit), more)
  {
    hide In, Canonical, Member, WholeTokens, Extended;
    var t := TokenAt(table, p);
    OneToken(table, p);
    var one := Extended(points, bit, code, code + t.first);
    var end := code + t.first + t.second;
    var more := if t.second > 0 then Extended(one, !bit, code + t.first, end) else one;
    ExtendedIn(points, bit, code, code + t.first, 0);
    if t.second > 0 {
      ExtendedIn(one, !bit, code + t.first, end, 0);
    }
    forall x | 0 <= x
      ensures Member(table, 0, 0, false, x) <==> if x < end then In(more, x) else Member(table, p + t.size, end, Flip(t, bit), x)
    {
      OneMember(table, p, code, bit, x);
      ExtendedIn(points, bit, code, code + t.first, x);
      if t.second > 0 {
        ExtendedIn(one, !bit, code + t.first, end, x);
      }
    }
  }

  lemma OneToken(table: seq<Byte>, p: nat)
    requires WholeTokens(table, p) && p < |table|
    ensures Complete(table, p) && WholeTokens(table, p + TokenAt(table, p).size)
  {
  }

  /** What one token says. */
  lemma OneMember(table: seq<Byte>, p: nat, code: nat, bit: bool, x: int)
    requires WholeTokens(table, p) && p < |table|
    ensures Complete(table, p)
    ensures var t := TokenAt(table, p);
            var end := code + t.first + t.second;
            WholeTokens(table, p + t.size) &&
            Member(table, p, code, bit, x) ==
            (if x < code + t.first then bit else if x < end then !bit else Member(table, p + t.size, end, Flip(t, bit), x))
  {
  }

  lemma DecodedEnd(table: seq<Byte>, p: nat, code: nat, bit: bool, points: seq<int>)
    requires Decoded(table, p, code, bit, points) && p >= |table|
    ensures Canonical(points) && forall x :: 0 <= x ==> (In(points, x) <==> Member(table, 0, 0, false, x))
  {
    hide In, Canonical;
    forall x | 0 <= x ensures In(points, x) <==> Member(table, 0, 0, false, x) {
      if x >= code {
        AllBelow(points, x);
      }
    }
  }

  lemma AllBelow(points: seq<int>, x: int)
    requires Canonical(points) && UpTo(points, x)
    ensures !In(points, x)
  {
    BelowAll(points, x);
  }

  lemma DecodedPosition(table: seq<Byte>, p: nat, code: nat, bit: bool, points: seq<int>)
    requires Decoded(table, p, code, bit, points) && p < |table|
    ensures Complete(table, p)
  {
  }

  /** unicode_prop1: the whole table as a range. */
  method UnicodeProp1(table: seq<Byte>) returns (cr: CharRange)
    requires WholeTokens(table, 0)
    ensures fresh(cr) && Canonical(cr.points)
    ensures forall x :: 0 <= x ==> (In(cr.points, x) <==> Member(table, 0, 0, false, x))
  {
    hide Decoded, Member, In, Canonical;
    cr := new CharRange();
    var p, c, bit := 0, 0, false;
    DecodedStart(table);
    while p < |table|
      invariant 0 <= p && 0 <= c && Decoded(table, p, c, bit, cr.points) && fresh(cr)
      decreases |table| - p
    {
      DecodedPosition(table, p, c, bit, cr.points);
      DecodedNext(table, p, c, bit, cr.points);
      var c0 := c;
      var b := table[p];
      p := p + 1;
      if b < 64 {
        c := c + (b / 8 + 1);
        if bit {
          cr.AddInterval(c0, c);
        }
        bit := !bit;
        c0 := c;
        c := c + (b % 8 + 1);
      } else if b >= 0x80 {
        c := c + (b - 0x80 + 1);
      } else if b < 0x60 {
        c := c + (Word(b - 0x40, table[p]) + 1);
        p := p + 1;
      } else {
        c := c + (Word(Word(b - 0x60, table[p]), table[p + 1]) + 1);
        p := p + 2;
      }
      if bit {
        cr.AddInterval(c0, c);
      }
      bit := !bit;
    }
    DecodedEnd(table, p, c, bit, cr.points);
  }

  // ---------- indexed lookup ----------

  const UNICODE_INDEX_BLOCK_LEN := 32
  const CODE_LIMIT := 0x20_0000

  function GetLe24(index: seq<Byte>, k: nat): nat
    requires 3 * k + 2 < |index|
  {
    Word(Word(index[3 * k + 2], index[3 * k + 1]), index[3 * k])
  }

  /** Entries of three bytes: 21 bits of code point and 3 bits of offset past the block. */
  function EntryCode(index: seq<Byte>, k: nat): nat
    requires 3 * k + 2 < |index|
  {
    GetLe24(index, k) % CODE_LIMIT
  }

  function EntryPos(index: seq<Byte>, k: nat): nat
    requires 3 * k + 2 < |index|
  {
    (k + 1) * UNICODE_INDEX_BLOCK_LEN + GetLe24(index, k) / CODE_LIMIT
  }

  /** A well-formed index: its entries are token boundaries of even parity in rising order, the last one the end. */
  ghost predicate IndexFor(table: seq<Byte>, index: seq<Byte>, n: nat)
  {
    WholeTokens(table, 0) && n > 0 && |index| == 3 * n && GetLe24(index, n - 1) == Total(table, 0, 0) < CODE_LIMIT &&
    (forall i, j :: 0 <= i < j < n ==> EntryCode(index, i) <= EntryCode(index, j)) &&
    forall k :: 0 <= k < n - 1 ==> Boundary(table, 0, 0, false, EntryPos(index, k), EntryCode(index, k))
  }

  /** get_index_pos: the block to start from, or -1 outside the table. */
  method GetIndexPos(c: nat, table: seq<Byte>, index: seq<Byte>, n: nat) returns (pos: int, code: nat)
    requires IndexFor(table, index, n)
    ensures pos < 0 <==> Total(table, 0, 0) <= c
    ensures pos >= 0 ==> code <= c && Boundary(table, 0, 0, false, pos, code)
  {
    hide Boundary, GetLe24, WholeTokens, Total;
    LastEntry(table, index, n);
    if c < EntryCode(index, 0) {
      StartBoundary(table);
      return 0, 0;
    }
    var idxMin, idxMax := 0, n - 1;
    if c >= GetLe24(index, idxMax) {
      return -1, 0;
    }
    while idxMax - idxMin > 1
      invariant 0 <= idxMin < idxMax <= n - 1 && EntryCode(index, idxMin) <= c < EntryCode(index, idxMax)
    {
      var idx := (idxMax + idxMin) / 2;
      if c < EntryCode(index, idx) {
        idxMax := idx;
      } else {
        idxMin := idx;
      }
    }
    code := EntryCode(index, idxMin);
    pos := EntryPos(index, idxMin);
  }

  lemma LastEntry(table: seq<Byte>, index: seq<Byte>, n: nat)
    requires IndexFor(table, index, n)
    ensures EntryCode(index, n - 1) == GetLe24(index, n - 1) == Total(table, 0, 0)
  {
    hide GetLe24, Boundary;
  }

  lemma StartBoundary(table: seq<Byte>)
    requires WholeTokens(table, 0)
    ensures Boundary(table, 0, 0, false, 0, 0)
  {
  }

  /** lre_is_in_table agrees with linear decoding. */
  method LreIsInTable(c: nat, table: seq<Byte>, index: seq<Byte>, n: nat) returns (found: bool)
    requires IndexFor(table, index, n)
    ensures found <==> Member(table, 0, 0, false, c)
  {
    hide IndexFor, Member, Boundary, WholeTokens, Total;
    var pos, code := GetIndexPos(c, table, index, n);
    IndexTable(table, index, n);
    if pos < 0 {
      BeyondTotal(table, 0, 0, false, c);
      return false;
    }
    FromBoundary(table, 0, 0, false, pos, code, c);
    var p: nat, bit := pos, false;
    while true
      invariant 0 <= code <= c && WholeTokens(table, p) && c < Total(table, p, code)
      invariant Member(table, p, code, bit, c) == Member(table, 0, 0, false, c)
      decreases |table| - p
    {
      ReadToken(table, p, code, bit, c);
      OneMember(table, p, code, bit, c);
      var b := table[p];
      p := p + 1;
      if b < 64 {
        code := code + (b / 8 + 1);
        if c < code {
          return bit;
        }
        bit := !bit;
        code := code + (b % 8 + 1);
      } else if b >= 0x80 {
        code := code + (b - 0x80 + 1);
      } else if b < 0x60 {
        code := code + (Word(b - 0x40, table[p]) + 1);
        p := p + 1;
      } else {
        code := code + (Word(Word(b - 0x60, table[p]), table[p + 1]) + 1);
        p := p + 2;
      }
      if c < code {
        return bit;
      }
      bit := !bit;
    }
  }

  lemma IndexTable(table: seq<Byte>, index: seq<Byte>, n: nat)
    requires IndexFor(table, index, n)
    ensures WholeTokens(table, 0)
  {
  }

  lemma ReadToken(table: seq<Byte>, p: nat, code: nat, bit: bool, c: int)
    requires WholeTokens(table, p) && code <= c < Total(table, p, code)
    ensures p < |table| && Complete(table, p)
    ensures var t := TokenAt(table, p);
            var end := code + t.first + t.second;
            WholeTokens(table, p + t.size) && (end <= c ==> c < Total(table, p + t.size, end))
  {
  }
}
