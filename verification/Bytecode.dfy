// The bytecode of the regular-expression engine: opcodes, their byte encoding
// and the decoding that the matcher performs at a program counter.
module Bytecode {

  type Byte = x: int | 0 <= x < 256
  type CodePoint = x: int | 0 <= x < 0x110000 witness 0

  const TWO16 := 0x1_0000
  const TWO32 := 0x1_0000_0000
  const INT32_MAX := 0x7fff_ffff

  // lre_bytecode_realloc refuses anything longer.
  const CODE_SIZE_MAX := INT32_MAX / 2

  /** An inclusive interval of characters, as stored behind range opcodes. */
  datatype Interval = Interval(low: int, high: int)

  /** One decoded instruction. Every `off` is relative to the byte after the operand that holds it. */
  datatype Instr =
    | Invalid
    | Char(c: int, icase: bool)
    | Char32(c: int, icase: bool)
    | Dot
    | Any
    | LineStart(multi: bool)
    | LineEnd(multi: bool)
    | Goto(off: int)
    | Split(nextFirst: bool, off: int)
    | Match
    | SaveStart(index: int)
    | SaveEnd(index: int)
    | SaveReset(first: int, last: int)
    | Loop(off: int)
    | PushI32(count: int)
    | Drop
    | WordBoundary(negated: bool, icase: bool)
    | BackReference(index: int, icase: bool)
    | Range(ranges: seq<Interval>, icase: bool)
    | Range32(ranges: seq<Interval>, icase: bool)
    | Lookahead(negated: bool, off: int)
    | PushCharPos
    | CheckAdvance
    | SimpleGreedyQuant(off: int, min: int, max: int, len: int)

  /** Number of bytes an instruction occupies. */
  function Size(i: Instr): (n: nat)
    ensures n >= 1
  {
    match i
    case Char(_, _) => 3
    case SaveReset(_, _) => 3
    case Char32(_, _) | Goto(_) | Split(_, _) | Loop(_) | PushI32(_) | Lookahead(_, _) => 5
    case SaveStart(_) | SaveEnd(_) | BackReference(_, _) => 2
    case Range(rs, _) => 3 + 4 * |rs|
    case Range32(rs, _) => 3 + 8 * |rs|
    case SimpleGreedyQuant(_, _, _, _) => 17
    case _ => 1
  }

  function SizeAll(ins: seq<Instr>): nat
  {
    if ins == [] then 0 else Size(ins[0]) + SizeAll(ins[1..])
  }

  // ---------- writing ----------

  function U16(v: int): (b: seq<Byte>)
    ensures |b| == 2
  {
    [v % 256, v / 256 % 256]
  }

  function U32(v: int): (b: seq<Byte>)
    ensures |b| == 4
  {
    U16(v % TWO16) + U16(v / TWO16 % TWO16)
  }

  function Flag(b: bool): nat { if b then 1 else 0 }

  function Opcode(i: Instr): (op: Byte)
  {
    match i
    case Invalid => 0
    case Char(_, ic) => 1 + Flag(ic)
    case Char32(_, ic) => 3 + Flag(ic)
    case Dot => 5
    case Any => 6
    case LineStart(m) => 7 + Flag(m)
    case LineEnd(m) => 9 + Flag(m)
    case Goto(_) => 11
    case Split(nf, _) => 12 + Flag(nf)
    case Match => 14
    case SaveStart(_) => 15
    case SaveEnd(_) => 16
    case SaveReset(_, _) => 17
    case Loop(_) => 18
    case PushI32(_) => 19
    case Drop => 20
    case WordBoundary(neg, ic) => 21 + 2 * Flag(neg) + Flag(ic)
    case BackReference(_, ic) => 25 + Flag(ic)
    case Range(_, ic) => 29 + Flag(ic)
    case Range32(_, ic) => 31 + Flag(ic)
    case Lookahead(neg, _) => 33 + Flag(neg)
    case PushCharPos => 35
    case CheckAdvance => 36
    case SimpleGreedyQuant(_, _, _, _) => 38
  }

  function Pairs16(rs: seq<Interval>): (b: seq<Byte>)
    ensures |b| == 4 * |rs|
  {
    if rs == [] then [] else U16(rs[0].low) + U16(rs[0].high) + Pairs16(rs[1..])
  }

  function Pairs32(rs: seq<Interval>): (b: seq<Byte>)
    ensures |b| == 8 * |rs|
  {
    if rs == [] then [] else U32(rs[0].low) + U32(rs[0].high) + Pairs32(rs[1..])
  }

  function QuantOperands(off: int, min: int, max: int, len: int): (b: seq<Byte>)
    ensures |b| == 16
  {
    U32(off) + U32(min) + U32(max) + U32(len)
  }

  /** The one 32-bit operand of a five-byte instruction. */
  function Word(i: Instr): int
  {
    match i
    case Char32(c, _) => c
    case Goto(off) => off
    case Split(_, off) => off
    case Loop(off) => off
    case Lookahead(_, off) => off
    case PushI32(n) => n
    case _ => 0
  }

  function Operands(i: Instr): (b: seq<Byte>)
    ensures |b| == Size(i) - 1
  {
    hide U16, U32, Pairs16, Pairs32;
    match i
    case Range(rs, _) => U16(|rs|) + Pairs16(rs)
    case Range32(rs, _) => U16(|rs|) + Pairs32(rs)
    case SimpleGreedyQuant(off, min, max, len) => QuantOperands(off, min, max, len)
    case Char(c, _) => U16(c)
    case SaveStart(n) => [n % 256]
    case SaveEnd(n) => [n % 256]
    case BackReference(n, _) => [n % 256]
    case SaveReset(a, b) => [a % 256, b % 256]
    case _ => if Size(i) == 5 then U32(Word(i)) else []
  }

  function Enc(i: Instr): (b: seq<Byte>)
    ensures |b| == Size(i)
  {
    [Opcode(i)] + Operands(i)
  }

  function EncAll(ins: seq<Instr>): (b: seq<Byte>)
    ensures |b| == SizeAll(ins)
  {
    if ins == [] then [] else Enc(ins[0]) + EncAll(ins[1..])
  }

  // ---------- reading ----------

  function GetU16(b: seq<Byte>, p: nat): (v: int)
    requires p + 2 <= |b|
    ensures 0 <= v < TWO16
  {
    (b[p] as int) + 256 * (b[p + 1] as int)
  }

  function GetU32(b: seq<Byte>, p: nat): (v: int)
    requires p + 4 <= |b|
    ensures 0 <= v < TWO32
  {
    GetU16(b, p) + TWO16 * GetU16(b, p + 2)
  }

  /** The C cast `(int)get_u32(p)`. */
  function GetS32(b: seq<Byte>, p: nat): (v: int)
    requires p + 4 <= |b|
  {
    var v := GetU32(b, p);
    if v > INT32_MAX then v - TWO32 else v
  }

  function GetPairs16(b: seq<Byte>, p: nat, n: nat): seq<Interval>
    requires p + 4 * n <= |b|
    decreases n
  {
    if n == 0 then [] else [Interval(GetU16(b, p), GetU16(b, p + 2))] + GetPairs16(b, p + 4, n - 1)
  }

  function GetPairs32(b: seq<Byte>, p: nat, n: nat): seq<Interval>
    requires p + 8 * n <= |b|
    decreases n
  {
    if n == 0 then [] else [Interval(GetU32(b, p), GetU32(b, p + 4))] + GetPairs32(b, p + 8, n - 1)
  }

  function GetRange16(b: seq<Byte>, p: nat, icase: bool): Instr
    requires p + 2 <= |b|
  {
    var k := GetU16(b, p);
    if p + 2 + 4 * k <= |b| then Range(GetPairs16(b, p + 2, k), icase) else Invalid
  }

  function GetRange32(b: seq<Byte>, p: nat, icase: bool): Instr
    requires p + 2 <= |b|
  {
    var k := GetU16(b, p);
    if p + 2 + 8 * k <= |b| then Range32(GetPairs32(b, p + 2, k), icase) else Invalid
  }

  /** The instruction whose opcode byte stands at `pc`; Invalid when there is none. */
  function Fetch(b: seq<Byte>, pc: int): Instr
  {
    if pc < 0 || pc >= |b| then Invalid else
    var op := b[pc];
    var n := |b| - pc - 1;
    if (op == 1 || op == 2) && n >= 2 then Char(GetU16(b, pc + 1), op == 2)
    else if (op == 3 || op == 4) && n >= 4 then Char32(GetU32(b, pc + 1), op == 4)
    else if op == 5 then Dot
    else if op == 6 then Any
    else if op == 7 || op == 8 then LineStart(op == 8)
    else if op == 9 || op == 10 then LineEnd(op == 10)
    else if op == 11 && n >= 4 then Goto(GetS32(b, pc + 1))
    else if (op == 12 || op == 13) && n >= 4 then Split(op == 13, GetS32(b, pc + 1))
    else if op == 14 then Match
    else if op == 15 && n >= 1 then SaveStart(b[pc + 1])
    else if op == 16 && n >= 1 then SaveEnd(b[pc + 1])
    else if op == 17 && n >= 2 then SaveReset(b[pc + 1], b[pc + 2])
    else if op == 18 && n >= 4 then Loop(GetS32(b, pc + 1))
    else if op == 19 && n >= 4 then PushI32(GetU32(b, pc + 1))
    else if op == 20 then Drop
    else if 21 <= op <= 24 then WordBoundary(op >= 23, op == 22 || op == 24)
    else if (op == 25 || op == 26) && n >= 1 then BackReference(b[pc + 1], op == 26)
    else if (op == 29 || op == 30) && n >= 2 then GetRange16(b, pc + 1, op == 30)
    else if (op == 31 || op == 32) && n >= 2 then GetRange32(b, pc + 1, op == 32)
    else if (op == 33 || op == 34) && n >= 4 then Lookahead(op == 34, GetS32(b, pc + 1))
    else if op == 35 then PushCharPos
    else if op == 36 then CheckAdvance
    else if op == 38 && n >= 16 then
      SimpleGreedyQuant(GetS32(b, pc + 1), GetU32(b, pc + 5), GetU32(b, pc + 9), GetU32(b, pc + 13))
    else Invalid
  }

  // ---------- reading back what was written ----------

  predicate IsU16(v: int) { 0 <= v < TWO16 }
  predicate IsU32(v: int) { 0 <= v < TWO32 }
  predicate IsS32(v: int) { -INT32_MAX - 1 <= v <= INT32_MAX }

  /** Every operand fits the field it is stored in. */
  predicate Encodable(i: Instr)
  {
    match i
    case Invalid => false
    case Char(c, _) => IsU16(c)
    case Char32(c, _) => IsU32(c)
    case SaveStart(n) => 0 <= n < 256
    case SaveEnd(n) => 0 <= n < 256
    case BackReference(n, _) => 0 <= n < 256
    case SaveReset(a, b) => 0 <= a < 256 && 0 <= b < 256
    case Goto(off) => IsS32(off)
    case Split(_, off) => IsS32(off)
    case Loop(off) => IsS32(off)
    case Lookahead(_, off) => IsS32(off)
    case PushI32(n) => IsU32(n)
    case Range(rs, _) => IsU16(|rs|) && forall k :: 0 <= k < |rs| ==> IsU16(rs[k].low) && IsU16(rs[k].high)
    case Range32(rs, _) => IsU16(|rs|) && forall k :: 0 <= k < |rs| ==> IsU32(rs[k].low) && IsU32(rs[k].high)
    case SimpleGreedyQuant(off, min, max, len) => IsS32(off) && IsU32(min) && IsU32(max) && IsU32(len)
    case _ => true
  }

  predicate At(b: seq<Byte>, p: nat, part: seq<Byte>)
  {
    p + |part| <= |b| && b[p..p + |part|] == part
  }

  lemma AtSplit(b: seq<Byte>, p: nat, x: seq<Byte>, y: seq<Byte>)
    requires At(b, p, x + y)
    ensures At(b, p, x) && At(b, p + |x|, y)
  {
    assert b[p..p + |x|] == (x + y)[..|x|] == x;
    assert b[p + |x|..p + |x| + |y|] == (x + y)[|x|..] == y;
  }

  lemma ReadU16(b: seq<Byte>, p: nat, v: int)
    requires IsU16(v) && At(b, p, U16(v))
    ensures GetU16(b, p) == v
  {
    assert b[p] == b[p..p + 2][0] && b[p + 1] == b[p..p + 2][1];
  }

  lemma WordSplit(v: int)
    ensures v % TWO16 + TWO16 * (v / TWO16 % TWO16) == v % TWO32
  {
    var q := v / TWO16;
    assert v == TWO16 * q + v % TWO16;
    assert q == TWO16 * (q / TWO16) + q % TWO16;
    assert v == TWO32 * (q / TWO16) + (TWO16 * (q % TWO16) + v % TWO16);
  }

  lemma ReadU32(b: seq<Byte>, p: nat, v: int)
    requires At(b, p, U32(v))
    ensures GetU32(b, p) == v % TWO32
    ensures IsS32(v) ==> GetS32(b, p) == v
    ensures IsU32(v) ==> GetU32(b, p) == v
  {
    AtSplit(b, p, U16(v % TWO16), U16(v / TWO16 % TWO16));
    ReadU16(b, p, v % TWO16);
    ReadU16(b, p + 2, v / TWO16 % TWO16);
    WordSplit(v);
  }

  lemma {:induction false} ReadPairs16(b: seq<Byte>, p: nat, rs: seq<Interval>)
    requires forall k :: 0 <= k < |rs| ==> IsU16(rs[k].low) && IsU16(rs[k].high)
    requires At(b, p, Pairs16(rs))
    ensures GetPairs16(b, p, |rs|) == rs
    decreases |rs|
  {
    if rs != [] {
      AtSplit(b, p, U16(rs[0].low) + U16(rs[0].high), Pairs16(rs[1..]));
      AtSplit(b, p, U16(rs[0].low), U16(rs[0].high));
      ReadU16(b, p, rs[0].low);
      ReadU16(b, p + 2, rs[0].high);
      ReadPairs16(b, p + 4, rs[1..]);
    }
  }

  lemma {:induction false} ReadPairs32(b: seq<Byte>, p: nat, rs: seq<Interval>)
    requires forall k :: 0 <= k < |rs| ==> IsU32(rs[k].low) && IsU32(rs[k].high)
    requires At(b, p, Pairs32(rs))
    ensures GetPairs32(b, p, |rs|) == rs
    decreases |rs|
  {
    if rs != [] {
      AtSplit(b, p, U32(rs[0].low) + U32(rs[0].high), Pairs32(rs[1..]));
      AtSplit(b, p, U32(rs[0].low), U32(rs[0].high));
      ReadU32(b, p, rs[0].low);
      ReadU32(b, p + 4, rs[0].high);
      ReadPairs32(b, p + 8, rs[1..]);
    }
  }

  /** Decoding inverts encoding wherever the bytes happen to lie. */
  lemma FetchEnc(b: seq<Byte>, pc: nat, i: Instr)
    requires Encodable(i) && At(b, pc, Enc(i))
    ensures Fetch(b, pc) == i
  {
    hide Fetch;
    if i.Range? || i.Range32? {
      FetchRange(b, pc, i);
    } else if Size(i) == 5 {
      FetchWord(b, pc, i);
    } else if i.SimpleGreedyQuant? {
      FetchQuant(b, pc, i);
    } else {
      FetchShort(b, pc, i);
    }
  }

  lemma OpcodeAt(b: seq<Byte>, pc: nat, i: Instr)
    requires At(b, pc, Enc(i))
    ensures pc < |b| && b[pc] == Opcode(i) && At(b, pc + 1, Operands(i))
  {
    AtSplit(b, pc, [Opcode(i)], Operands(i));
    assert b[pc] == b[pc..pc + 1][0];
  }

  lemma ReadRange16(b: seq<Byte>, p: nat, rs: seq<Interval>, icase: bool)
    requires Encodable(Range(rs, icase)) && At(b, p, U16(|rs|) + Pairs16(rs))
    ensures GetRange16(b, p, icase) == Range(rs, icase)
  {
    hide U16, Pairs16, GetU16, GetPairs16;
    AtSplit(b, p, U16(|rs|), Pairs16(rs));
    ReadU16(b, p, |rs|);
    ReadPairs16(b, p + 2, rs);
  }

  lemma ReadRange32(b: seq<Byte>, p: nat, rs: seq<Interval>, icase: bool)
    requires Encodable(Range32(rs, icase)) && At(b, p, U16(|rs|) + Pairs32(rs))
    ensures GetRange32(b, p, icase) == Range32(rs, icase)
  {
    hide U16, Pairs32, GetU16, GetPairs32;
    AtSplit(b, p, U16(|rs|), Pairs32(rs));
    ReadU16(b, p, |rs|);
    ReadPairs32(b, p + 2, rs);
  }

  lemma FetchRange(b: seq<Byte>, pc: nat, i: Instr)
    requires (i.Range? || i.Range32?) && Encodable(i) && At(b, pc, Enc(i))
    ensures Fetch(b, pc) == i
  {
    hide U16, Pairs16, Pairs32, GetRange16, GetRange32, Enc;
    OpcodeAt(b, pc, i);
    if i.Range? {
      ReadRange16(b, pc + 1, i.ranges, i.icase);
    } else {
      ReadRange32(b, pc + 1, i.ranges, i.icase);
    }
  }

  lemma FetchWord(b: seq<Byte>, pc: nat, i: Instr)
    requires Size(i) == 5 && !i.Range? && !i.Range32?
    requires Encodable(i) && At(b, pc, Enc(i))
    ensures Fetch(b, pc) == i
  {
    hide Enc, U32;
    OpcodeAt(b, pc, i);
    ReadU32(b, pc + 1, Word(i));
  }

  lemma FetchQuant(b: seq<Byte>, pc: nat, i: Instr)
    requires i.SimpleGreedyQuant? && Encodable(i) && At(b, pc, Enc(i))
    ensures Fetch(b, pc) == i
  {
    hide Enc, U32;
    OpcodeAt(b, pc, i);
    ReadQuant(b, pc + 1, i.off, i.min, i.max, i.len);
  }

  lemma FetchShort(b: seq<Byte>, pc: nat, i: Instr)
    requires Size(i) < 5 && !i.Range? && !i.Range32?
    requires Encodable(i) && At(b, pc, Enc(i))
    ensures Fetch(b, pc) == i
  {
    hide Enc;
    OpcodeAt(b, pc, i);
    var q := pc + 1;
    if i.Char? {
      ReadU16(b, q, i.c);
    } else {
      assert Size(i) >= 2 ==> b[q] == b[q..q + Size(i) - 1][0];
      assert Size(i) == 3 ==> b[q + 1] == b[q..q + 2][1];
    }
  }

  lemma ReadQuant(b: seq<Byte>, q: nat, off: int, min: int, max: int, len: int)
    requires IsS32(off) && IsU32(min) && IsU32(max) && IsU32(len)
    requires At(b, q, QuantOperands(off, min, max, len))
    ensures GetS32(b, q) == off && GetU32(b, q + 4) == min && GetU32(b, q + 8) == max && GetU32(b, q + 12) == len
  {
    AtSplit(b, q, U32(off) + U32(min) + U32(max), U32(len));
    AtSplit(b, q, U32(off) + U32(min), U32(max));
    AtSplit(b, q, U32(off), U32(min));
    ReadU32(b, q, off);
    ReadU32(b, q + 4, min);
    ReadU32(b, q + 8, max);
    ReadU32(b, q + 12, len);
  }

  // ---------- instruction lists in place ----------

  lemma {:induction false} SizeAllAppend(x: seq<Instr>, y: seq<Instr>)
    ensures SizeAll(x + y) == SizeAll(x) + SizeAll(y)
  {
    if x == [] {
      assert x + y == y;
    } else {
      assert (x + y)[0] == x[0] && (x + y)[1..] == x[1..] + y;
      SizeAllAppend(x[1..], y);
    }
  }

  lemma {:induction false} EncAllAppend(x: seq<Instr>, y: seq<Instr>)
    ensures EncAll(x + y) == EncAll(x) + EncAll(y)
  {
    if x == [] {
      assert x + y == y;
    } else {
      assert (x + y)[0] == x[0] && (x + y)[1..] == x[1..] + y;
      EncAllAppend(x[1..], y);
    }
  }

  /** The instructions `ins` can be fetched one after the other starting at `pc`. */
  ghost predicate Loaded(b: seq<Byte>, pc: nat, ins: seq<Instr>)
    decreases |ins|
  {
    ins == [] || (Fetch(b, pc) == ins[0] && Loaded(b, pc + Size(ins[0]), ins[1..]))
  }

  lemma {:induction false} LoadedSplit(b: seq<Byte>, pc: nat, x: seq<Instr>, y: seq<Instr>)
    requires Loaded(b, pc, x + y)
    ensures Loaded(b, pc, x) && Loaded(b, pc + SizeAll(x), y)
    decreases |x|
  {
    hide Fetch, Size;
    if x == [] {
      assert x + y == y;
    } else {
      assert (x + y)[0] == x[0] && (x + y)[1..] == x[1..] + y;
      LoadedSplit(b, pc + Size(x[0]), x[1..], y);
    }
  }

  /** Emitted bytes decode to the instructions they encode, at whatever address they end up. */
  lemma {:induction false} LoadedFromBytes(b: seq<Byte>, pc: nat, ins: seq<Instr>)
    requires forall i :: i in ins ==> Encodable(i)
    requires At(b, pc, EncAll(ins))
    ensures Loaded(b, pc, ins)
    decreases |ins|
  {
    hide Fetch, Enc, Size, Encodable;
    if ins != [] {
      AtSplit(b, pc, Enc(ins[0]), EncAll(ins[1..]));
      FetchEnc(b, pc, ins[0]);
      LoadedFromBytes(b, pc + Size(ins[0]), ins[1..]);
    }
  }
}
