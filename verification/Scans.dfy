// The linear scans over emitted bytes: re_is_simple_quantifier, re_need_check_advance, compute_stack_size.
module Scans {
  import opened Bytecode
  import opened Subjects
  import opened Regex
  import opened CodeGen
  import opened EncodableCode
  import opened StackDepth

  /** reopcode_info[op].size */
  function OpcodeSize(op: int): nat
  {
    if op == 1 || op == 2 || op == 17 || 29 <= op <= 32 then 3
    else if op == 3 || op == 4 || 11 <= op <= 13 || op == 18 || op == 19 || op == 33 || op == 34 then 5
    else if op == 15 || op == 16 || 25 <= op <= 28 then 2
    else if op == 38 then 17
    else 1
  }

  /** Length of the instruction at `pos`, with the operands of a range. */
  function LengthAt(bc: seq<Byte>, pos: nat): nat
    requires pos < |bc|
  {
    var op, n := bc[pos], OpcodeSize(bc[pos]);
    if pos + 3 <= |bc| && (op == 29 || op == 30) then n + 4 * GetU16(bc, pos + 1)
    else if pos + 3 <= |bc| && (op == 31 || op == 32) then n + 8 * GetU16(bc, pos + 1)
    else n
  }

  /** The number of ranges fits its 16-bit operand. */
  predicate Narrow(i: Instr) { (i.Range? || i.Range32?) ==> |i.ranges| < RANGE_COUNT_MAX }

  predicate AllNarrow(ins: seq<Instr>) { forall k :: 0 <= k < |ins| ==> Narrow(ins[k]) }

  lemma HeadBytes(bc: seq<Byte>, pos: nat, ins: seq<Instr>)
    requires pos <= |bc| && bc[pos..] == EncAll(ins) && ins != [] && AllNarrow(ins)
    ensures pos < |bc| && bc[pos] == Opcode(ins[0]) && LengthAt(bc, pos) == Size(ins[0])
    ensures pos + Size(ins[0]) <= |bc| && bc[pos + Size(ins[0])..] == EncAll(ins[1..])
    ensures AllNarrow(ins[1..])
  {
    hide Opcode, Operands;
    var i := ins[0];
    assert Narrow(i);
    assert bc[pos] == bc[pos..][0];
    assert bc[pos + Size(i)..] == bc[pos..][Size(i)..] == EncAll(ins[1..]);
    HeadLength(bc, pos, i, EncAll(ins[1..]));
  }

  lemma HeadLength(bc: seq<Byte>, pos: nat, i: Instr, rest: seq<Byte>)
    requires pos <= |bc| && bc[pos..] == Enc(i) + rest && Narrow(i)
    ensures LengthAt(bc, pos) == Size(i)
  {
    hide Pairs16, Pairs32, QuantOperands, U32;
    assert bc[pos] == bc[pos..][0] == Opcode(i);
    if i.Range? || i.Range32? {
      var count := U16(|i.ranges|);
      assert Operands(i)[..2] == count;
      assert bc[pos + 1] == bc[pos..][1] == count[0];
      assert bc[pos + 2] == bc[pos..][2] == count[1];
    }
  }

  predicate SingleCharOp(op: int) { 1 <= op <= 6 || 29 <= op <= 32 }
  predicate AssertionOp(op: int) { 7 <= op <= 10 || 21 <= op <= 24 }
  predicate StillOp(op: int)
  {
    AssertionOp(op) || op == 19 || op == 35 || op == 20 || op == 37 || 15 <= op <= 17 || 25 <= op <= 28
  }

  lemma OpcodeClasses(i: Instr)
    ensures SingleCharOp(Opcode(i)) <==> SingleChar(i)
    ensures AssertionOp(Opcode(i)) <==> Assertion(i)
    ensures !SingleChar(i) ==> (StillOp(Opcode(i)) <==> Predictable(i))
    ensures Opcode(i) == 19 || Opcode(i) == 35 <==> Effect(i) == 1
    ensures Opcode(i) == 20 || Opcode(i) == 36 <==> Effect(i) == -1
  {
  }

  /** The number of characters of a straight-line atom, -1 if a simple quantifier cannot be used. */
  method ReIsSimpleQuantifier(bc: seq<Byte>, ghost ins: seq<Instr>) returns (count: int)
    requires bc == EncAll(ins) && AllNarrow(ins)
    ensures count == SimpleLength(ins)
  {
    hide EncAll, Opcode, LengthAt, Size, Narrow, SingleChar, Assertion;
    count := 0;
    var pos := 0;
    ghost var rest := ins;
    assert bc[0..] == bc;
    while pos < |bc|
      invariant 0 <= pos <= |bc| && bc[pos..] == EncAll(rest) && AllNarrow(rest) && count >= 0
      invariant SimpleLength(ins) == if SimpleLength(rest) < 0 then -1 else count + SimpleLength(rest)
      decreases |bc| - pos
    {
      NotEmpty(rest);
      HeadBytes(bc, pos, rest);
      OpcodeClasses(rest[0]);
      var op := bc[pos];
      if SingleCharOp(op) {
        count := count + 1;
      } else if !AssertionOp(op) {
        return -1;
      }
      pos := pos + LengthAt(bc, pos);
      SizePositive(rest[0]);
      rest := rest[1..];
    }
    Empty(rest);
  }

  lemma NotEmpty(ins: seq<Instr>)
    requires EncAll(ins) != []
    ensures ins != []
  {
  }

  lemma Empty(ins: seq<Instr>)
    requires EncAll(ins) == []
    ensures ins == []
  {
    hide Enc;
  }

  lemma SizePositive(i: Instr)
    ensures Size(i) > 0
  {
  }

  /** True if the code may not advance the position. */
  method ReNeedCheckAdvance(bc: seq<Byte>, ghost ins: seq<Instr>) returns (ret: bool)
    requires bc == EncAll(ins) && AllNarrow(ins)
    ensures ret == NeedCheckAdvance(ins)
  {
    hide EncAll, Opcode, LengthAt, Size, Narrow, SingleChar, Predictable;
    ret := true;
    var pos := 0;
    ghost var rest := ins;
    assert bc[0..] == bc;
    while pos < |bc|
      invariant 0 <= pos <= |bc| && bc[pos..] == EncAll(rest) && AllNarrow(rest)
      invariant Scan(ins) == Both(if ret then Still else Moving, Scan(rest))
      decreases |bc| - pos
    {
      NotEmpty(rest);
      HeadBytes(bc, pos, rest);
      OpcodeClasses(rest[0]);
      var op := bc[pos];
      if SingleCharOp(op) {
        ret := false;
      } else if !StillOp(op) {
        return true;
      }
      pos := pos + LengthAt(bc, pos);
      SizePositive(rest[0]);
      rest := rest[1..];
    }
    Empty(rest);
  }

  /** The greatest stack depth in the code, -1 if it exceeds STACK_SIZE_MAX. */
  method ComputeStackSize(bc: seq<Byte>, ghost ins: seq<Instr>) returns (max: int)
    requires bc == EncAll(ins) && AllNarrow(ins)
    ensures max == MaxDepth(ins, 0, 0)
  {
    hide EncAll, Opcode, LengthAt, Size, Narrow;
    max := 0;
    var pos, depth := 0, 0;
    ghost var rest := ins;
    assert bc[0..] == bc;
    while pos < |bc|
      invariant 0 <= pos <= |bc| && bc[pos..] == EncAll(rest) && AllNarrow(rest) && depth <= max
      invariant MaxDepth(ins, 0, 0) == MaxDepth(rest, depth, max)
      decreases |bc| - pos
    {
      NotEmpty(rest);
      HeadBytes(bc, pos, rest);
      OpcodeClasses(rest[0]);
      var op := bc[pos];
      if op == 19 || op == 35 {
        depth := depth + 1;
        if depth > max {
          if depth > STACK_SIZE_MAX {
            return -1;
          }
          max := depth;
        }
      } else if op == 20 || op == 36 {
        depth := depth - 1;
      }
      pos := pos + LengthAt(bc, pos);
      SizePositive(rest[0]);
      rest := rest[1..];
    }
    Empty(rest);
  }

  // ---------- emitted code is narrow ----------

  lemma NarrowAppend(x: seq<Instr>, y: seq<Instr>)
    requires AllNarrow(x) && AllNarrow(y)
    ensures AllNarrow(x + y)
  {
    hide Narrow;
  }

  lemma NarrowFirst(i: Instr, y: seq<Instr>)
    requires !i.Range? && !i.Range32? && AllNarrow(y)
    ensures AllNarrow([i] + y)
  {
  }

  lemma NarrowLoop(a: seq<Instr>, check: bool, left: Count, greedy: bool)
    requires AllNarrow(a)
    ensures AllNarrow(LoopCode(a, check, left, greedy)) && AllNarrow(Round(a, check))
  {
    hide SizeAll, Narrow;
    var n: int := RoundSize(a, check);
    NoRanges();
    NarrowAppend([PushCharPos], a);
    NarrowAppend([PushCharPos] + a, [CheckAdvance]);
    var r := Round(a, check);
    match left
    case Unlimited =>
      PlainOne(Goto(-(n + 10)));
      PlainOne(Split(greedy, n + 5));
      NarrowAppend(r, [Goto(-(n + 10))]);
      NarrowAppend([Split(greedy, n + 5)], r + [Goto(-(n + 10))]);
    case Times(k) =>
      if k > 0 {
        PlainOne(Split(greedy, n + 5));
        PlainOne(PushI32(k));
        PlainTwo(Loop(-(n + 10)), Drop);
        NarrowAppend(r, [Loop(-(n + 10)), Drop]);
        NarrowAppend([Split(greedy, n + 5)], r + [Loop(-(n + 10)), Drop]);
        NarrowAppend([PushI32(k)], [Split(greedy, n + 5)] + (r + [Loop(-(n + 10)), Drop]));
      }
  }

  lemma PlainOne(i: Instr)
    requires !i.Range? && !i.Range32?
    ensures AllNarrow([i])
  {
  }

  lemma PlainTwo(i: Instr, j: Instr)
    requires !i.Range? && !i.Range32? && !j.Range? && !j.Range32?
    ensures AllNarrow([i, j])
  {
  }

  lemma NoRanges()
    ensures AllNarrow([]) && AllNarrow([PushCharPos]) && AllNarrow([CheckAdvance])
  {
  }

  lemma NarrowRepeat(a: seq<Instr>, cc: nat, groups: nat, min: nat, max: nat, greedy: bool)
    requires AllNarrow(a)
    ensures AllNarrow(RepeatCode(a, cc, groups, min, max, greedy))
  {
    hide SizeAll, Narrow, LoopCode, Round, Scan, SimpleLength;
    var check := NeedCheckAdvance(a);
    var n: int := RoundSize(a, check);
    NarrowLoop(a, check, Extra(min, max), greedy);
    NarrowLoop(a, check, Extra(0, max), greedy);
    NoRanges();
    if UsesSimpleQuant(a, max, greedy) {
      PlainOne(Match);
      NarrowAppend(a, [Match]);
      NarrowFirst(SimpleGreedyQuant(SizeAll(a) + 1, min, max, SimpleLength(a)), a + [Match]);
    } else if min == 0 {
      PlainOne(SaveReset(cc, cc + groups - 1));
      NarrowFirst(Split(greedy, n), Round(a, check));
      NarrowAppend(ResetCode(cc, groups),
                   if max == 1 then [Split(greedy, n)] + Round(a, check) else LoopCode(a, check, Extra(0, max), greedy));
    } else if min == 1 && max == INT32_MAX && !check {
      PlainOne(Split(!greedy, -(n + 5)));
      NarrowAppend(a, [Split(!greedy, -(n + 5))]);
    } else {
      var back := Loop(-(SizeAll(a) + 5));
      PlainTwo(back, Drop);
      NarrowAppend(a, [back, Drop]);
      NarrowFirst(PushI32(min), a + [back, Drop]);
      NarrowAppend(if min == 1 then a else [PushI32(min)] + (a + [back, Drop]), LoopCode(a, check, Extra(min, max), greedy));
    }
  }

  lemma {:induction false} CodeNarrow(canon: Canon, r: Regex, cc: nat)
    requires RangesFit(r)
    ensures AllNarrow(Code(canon, r, cc))
    decreases r
  {
    hide RepeatCode, SizeAll;
    match r
    case Concat(a, b) =>
      CodeNarrow(canon, a, cc);
      CodeNarrow(canon, b, cc + Groups(a));
      NarrowAppend(Code(canon, a, cc), Code(canon, b, cc + Groups(a)));
    case Alternate(a, b) =>
      CodeNarrow(canon, a, cc);
      CodeNarrow(canon, b, cc + Groups(a));
      var x, y := Code(canon, a, cc), Code(canon, b, cc + Groups(a));
      NarrowFirst(Goto(SizeAll(y)), y);
      NarrowAppend(x, [Goto(SizeAll(y))] + y);
      NarrowFirst(Split(true, SizeAll(x) + 5), x + ([Goto(SizeAll(y))] + y));
    case Group(a) =>
      CodeNarrow(canon, a, cc + 1);
      PlainOne(SaveEnd(cc));
      NarrowAppend(Code(canon, a, cc + 1), [SaveEnd(cc)]);
      NarrowFirst(SaveStart(cc), Code(canon, a, cc + 1) + [SaveEnd(cc)]);
    case Look(negated, a) =>
      CodeNarrow(canon, a, cc);
      var x := Code(canon, a, cc);
      PlainOne(Match);
      NarrowAppend(x, [Match]);
      NarrowFirst(Lookahead(negated, SizeAll(x) + 1), x + [Match]);
    case Repeat(a, times, greedy) =>
      CodeNarrow(canon, a, cc);
      NarrowRepeat(Code(canon, a, cc), cc, Groups(a), times.min, times.max, greedy);
    case _ =>
  }
}
