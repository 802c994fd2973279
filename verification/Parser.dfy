// REParseState: the byte code grows and is patched in place while the pattern is walked once.
module Parser {
  import opened Bytecode
  import opened Subjects
  import opened PointSets
  import opened Regex
  import opened CodeGen
  import opened EncodableCode
  import opened Equations
  import opened Scans

  /** What makes re_parse_disjunction give up. */
  predicate Accepted(r: Regex, cc: nat)
  {
    RangesFit(r) && cc + Groups(r) <= CAPTURE_COUNT_MAX
  }

  class ParseState {
    const canon: Canon
    var byteCode: seq<Byte>
    var captureCount: nat

    constructor (canon: Canon)
      ensures this.canon == canon && byteCode == [] && captureCount == 1
    {
      this.canon := canon;
      byteCode := [];
      captureCount := 1;
    }

    method Put(bytes: seq<Byte>)
      modifies this`byteCode
      ensures byteCode == old(byteCode) + bytes
    {
      byteCode := byteCode + bytes;
    }

    /** re_emit_op_u32; the result is the offset of the operand. */
    method EmitOpU32(op: Byte, v: int) returns (pos: nat)
      modifies this`byteCode
      ensures byteCode == old(byteCode) + ([op] + U32(v)) && pos == |old(byteCode)| + 1
    {
      pos := |byteCode| + 1;
      byteCode := byteCode + ([op] + U32(v));
    }

    /** re_emit_goto: the operand is relative to its own end. */
    method EmitGoto(op: Byte, target: int)
      modifies this`byteCode
      ensures byteCode == old(byteCode) + ([op] + U32(target - (|old(byteCode)| + 5)))
    {
      byteCode := byteCode + ([op] + U32(target - (|byteCode| + 5)));
    }

    /** dbuf_insert; what the gap holds is up to memmove. */
    method DbufInsert(pos: nat, len: nat)
      requires pos <= |byteCode|
      modifies this`byteCode
      ensures |byteCode| == |old(byteCode)| + len
      ensures byteCode[..pos] == old(byteCode)[..pos] && byteCode[pos + len..] == old(byteCode)[pos..]
    {
      var gap := seq(len, k => 0);
      byteCode := byteCode[..pos] + gap + byteCode[pos..];
    }

    /** Overwrite bytes already emitted. */
    method Patch(pos: nat, bytes: seq<Byte>)
      requires pos + |bytes| <= |byteCode|
      modifies this`byteCode
      ensures byteCode == old(byteCode)[..pos] + bytes + old(byteCode)[pos + |bytes|..]
    {
      byteCode := byteCode[..pos] + bytes + byteCode[pos + |bytes|..];
    }

    /** Make room at `pos` and fill it. */
    method InsertBytes(pos: nat, bytes: seq<Byte>)
      requires pos <= |byteCode|
      modifies this`byteCode
      ensures byteCode == old(byteCode)[..pos] + (bytes + old(byteCode)[pos..])
    {
      var before := byteCode;
      DbufInsert(pos, |bytes|);
      Patch(pos, bytes);
      assert before[..pos] + bytes + before[pos..] == before[..pos] + (bytes + before[pos..]);
    }

    // ---------- atoms ----------

    /** re_emit_char */
    method EmitChar(c: CodePoint, icase: bool)
      modifies this`byteCode
      ensures byteCode == old(byteCode) + EncAll(LiteralCode(canon, c, icase))
    {
      hide U16, U32;
      var d := if icase then canon(c) else c;
      if d <= 0xffff {
        EncOne(Char(d, icase));
        Put([1 + Flag(icase)] + U16(d));
      } else {
        EncOne(Char32(d, icase));
        Put([3 + Flag(icase)] + U32(d));
      }
    }

    /** re_emit_range */
    method EmitRange(points: Points, icase: bool) returns (ok: bool)
      modifies this`byteCode
      ensures ok == (|points| / 2 < RANGE_COUNT_MAX)
      ensures ok ==> byteCode == old(byteCode) + EncAll(ClassCode(points, icase))
    {
      hide U16, U32, Pairs16, Pairs32;
      var len := |points| / 2;
      if len >= RANGE_COUNT_MAX {
        return false;
      }
      EncOne(ClassCode(points, icase)[0]);
      assert ClassCode(points, icase) == [ClassCode(points, icase)[0]];
      if len == 0 {
        Put([3] + U32(UINT32_MAX));
      } else {
        var high := points[2 * len - 1];
        if high == UINT32_MAX {
          high := points[2 * len - 2];
        }
        if high <= 0xffff {
          Put([29 + Flag(icase)] + (U16(len) + Pairs16(Intervals(points, 0xffff))));
        } else {
          Put([31 + Flag(icase)] + (U16(len) + Pairs32(Intervals(points, UINT32_MAX - 1))));
        }
      }
      return true;
    }

    /** The cases of re_parse_term that emit a single byte or two. */
    method ParseOp(r: Regex)
      requires r.AnyChar? || IsAssertion(r) || r.Backref?
      modifies this`byteCode
      ensures byteCode == old(byteCode) + EncAll(Code(canon, r, captureCount))
    {
      hide EncAll;
      LeafBytes(canon, r, captureCount);
      match r
      case AnyChar(dotAll) => Put([if dotAll then 6 else 5]);
      case Begin(multi) => Put([7 + Flag(multi)]);
      case End(multi) => Put([9 + Flag(multi)]);
      case Boundary(negated, icase) => Put([21 + 2 * Flag(negated) + Flag(icase)]);
      case Backref(n, icase) => Put([25 + Flag(icase), n]);
    }

    /** The cases of re_parse_term without sub-patterns. */
    method ParseAtom(r: Regex) returns (ok: bool)
      requires !r.Concat? && !r.Alternate? && !r.Group? && !r.Look? && !r.Repeat?
      modifies this`byteCode
      ensures ok == RangesFit(r)
      ensures ok ==> byteCode == old(byteCode) + EncAll(Code(canon, r, captureCount))
    {
      hide EncAll, LiteralCode, ClassCode;
      ok := true;
      if r.Empty? {
        EncNothing(byteCode);
      } else if r.Literal? {
        EmitChar(r.c, r.icase);
      } else if r.Class? {
        ok := EmitRange(r.points, r.icase);
      } else {
        ParseOp(r);
      }
    }

    // ---------- compound patterns ----------

    method Parse(r: Regex) returns (ok: bool)
      requires captureCount <= CAPTURE_COUNT_MAX
      modifies this
      ensures ok == Accepted(r, old(captureCount))
      ensures ok ==> byteCode == old(byteCode) + EncAll(Code(canon, r, old(captureCount)))
      ensures ok ==> captureCount == old(captureCount) + Groups(r)
      decreases r
    {
      hide Code, EncAll;
      match r
      case Concat(a, b) =>
        ghost var cc, p := captureCount, byteCode;
        ok := Parse(a);
        if ok {
          ok := Parse(b);
        }
        if ok {
          CodeConcat(canon, r, cc);
          EncAllAppend(Code(canon, a, cc), Code(canon, b, cc + Groups(a)));
          Assoc3(p, EncAll(Code(canon, a, cc)), EncAll(Code(canon, b, cc + Groups(a))));
        }
      case Alternate(_, _) => ok := ParseDisjunction(r);
      case Group(_) => ok := ParseGroup(r);
      case Look(_, _) => ok := ParseLook(r);
      case Repeat(_, _, _) => ok := ParseRepeat(r);
      case _ => ok := ParseAtom(r);
    }

    /** The `|` case of re_parse_disjunction: a split is inserted before what has been emitted. */
    method ParseDisjunction(r: Regex) returns (ok: bool)
      requires r.Alternate?
      requires captureCount <= CAPTURE_COUNT_MAX
      modifies this
      ensures ok == Accepted(r, old(captureCount))
      ensures ok ==> byteCode == old(byteCode) + EncAll(Code(canon, r, old(captureCount)))
      ensures ok ==> captureCount == old(captureCount) + Groups(r)
      decreases r, 0
    {
      hide Code, EncAll, U32, SizeAll;
      ghost var cc, p := captureCount, byteCode;
      var start := |byteCode|;
      ok := Parse(r.first);
      if !ok {
        return;
      }
      ghost var x := EncAll(Code(canon, r.first, cc));
      var len := |byteCode| - start;
      InsertBytes(start, [13] + U32(len + 5));
      ghost var head := [13] + U32(len + 5);
      SliceFacts(p, x);
      assert byteCode == p + (head + x);
      var pos := EmitOpU32(11, 0);
      ghost var q := byteCode[..pos - 1];
      assert q == p + (head + x) && byteCode == q + ([11] + U32(0));
      ok := Parse(r.second);
      if !ok {
        return;
      }
      ghost var y := EncAll(Code(canon, r.second, cc + Groups(r.first)));
      len := |byteCode| - (pos + 4);
      assert byteCode == q + ([11] + U32(0)) + y;
      Patch(pos, U32(len));
      PatchFacts(q, U32(0), U32(len), y);
      assert byteCode == q + (([11] + U32(len)) + y);
      CodeAlternate(canon, r, cc);
      EncAlternate(Code(canon, r.first, cc), Code(canon, r.second, cc + Groups(r.first)));
      Assoc3(p, head + x, ([11] + U32(len)) + y);
      Assoc3(head, x, ([11] + U32(len)) + y);
    }

    method ParseGroup(r: Regex) returns (ok: bool)
      requires r.Group?
      requires captureCount <= CAPTURE_COUNT_MAX
      modifies this
      ensures ok == Accepted(r, old(captureCount))
      ensures ok ==> byteCode == old(byteCode) + EncAll(Code(canon, r, old(captureCount)))
      ensures ok ==> captureCount == old(captureCount) + Groups(r)
      decreases r, 0
    {
      hide Code, EncAll, Enc, GroupCode;
      if captureCount >= CAPTURE_COUNT_MAX {
        return false;
      }
      ghost var p, cc := byteCode, captureCount;
      var captureIndex := captureCount;
      captureCount := captureCount + 1;
      Put([15, captureIndex]);
      ok := Parse(r.body);
      if !ok {
        return;
      }
      Put([16, captureIndex]);
      ghost var x := Code(canon, r.body, cc + 1);
      CodeGroup(canon, r, cc);
      EncGroup(cc, x);
      Assoc4(p, [15, captureIndex], EncAll(x), [16, captureIndex]);
    }

    /** The offset of the lookahead is patched once its body is known. */
    method ParseLook(r: Regex) returns (ok: bool)
      requires r.Look?
      requires captureCount <= CAPTURE_COUNT_MAX
      modifies this
      ensures ok == Accepted(r, old(captureCount))
      ensures ok ==> byteCode == old(byteCode) + EncAll(Code(canon, r, old(captureCount)))
      ensures ok ==> captureCount == old(captureCount) + Groups(r)
      decreases r, 0
    {
      hide Code, EncAll, U32, SizeAll;
      ghost var p, cc := byteCode, captureCount;
      var op := 33 + Flag(r.negated);
      var pos := EmitOpU32(op, 0);
      ok := Parse(r.body);
      if !ok {
        return;
      }
      Put([14]);
      ghost var x := Code(canon, r.body, cc);
      var len := |byteCode| - (pos + 4);
      assert byteCode == (p + ([op] + U32(0))) + EncAll(x) + [14];
      Assoc3(p + ([op] + U32(0)), EncAll(x), [14]);
      Patch(pos, U32(len));
      PatchFactsAt(p, op, U32(0), U32(len), EncAll(x) + [14]);
      EncLook(canon, r, cc, p);
    }

    method ParseRepeat(r: Regex) returns (ok: bool)
      requires r.Repeat?
      requires captureCount <= CAPTURE_COUNT_MAX
      modifies this
      ensures ok == Accepted(r, old(captureCount))
      ensures ok ==> byteCode == old(byteCode) + EncAll(Code(canon, r, old(captureCount)))
      ensures ok ==> captureCount == old(captureCount) + Groups(r)
      decreases r, 0
    {
      hide Code, EncAll, RepeatCode;
      var lastAtomStart, lastCaptureCount := |byteCode|, captureCount;
      ghost var p := byteCode;
      ok := Parse(r.body);
      if !ok {
        return;
      }
      ghost var x := Code(canon, r.body, lastCaptureCount);
      CodeNarrow(canon, r.body, lastCaptureCount);
      Quantify(lastAtomStart, lastCaptureCount, r.times.min, r.times.max, r.greedy, p, x);
      CodeRepeat(canon, r, lastCaptureCount);
    }

    /** The quantifier part of re_parse_term. */
    method Quantify(atom: nat, lastCaptureCount: nat, min: nat, max: nat, greedy: bool,
                    ghost p: seq<Byte>, ghost x: seq<Instr>)
      requires byteCode == p + EncAll(x) && |p| == atom && AllNarrow(x) && lastCaptureCount <= captureCount
      requires min <= max <= INT32_MAX
      modifies this`byteCode
      ensures byteCode == p + EncAll(RepeatCode(x, lastCaptureCount, captureCount - lastCaptureCount, min, max, greedy))
    {
      hide EncAll, Enc, U32, RepeatCode, Scan, SimpleLength, AllNarrow, SizeAll, QuantOperands;
      SliceFacts(p, EncAll(x));
      if greedy && max > 0 {
        var len := ReIsSimpleQuantifier(byteCode[atom..], x);
        if len > 0 {
          SimpleQuantify(atom, min, max, len, p, x);
          EncSimple(x, lastCaptureCount, captureCount - lastCaptureCount, min, max, greedy);
          return;
        }
      }
      var check := ReNeedCheckAdvance(byteCode[atom..], x);
      if min == 0 {
        MayBeSkipped(atom, lastCaptureCount, max, greedy, check, p, x);
      } else if min == 1 && max == INT32_MAX && !check {
        EmitGoto(12 + Flag(!greedy), atom);
        EncPlus(p, x, lastCaptureCount, captureCount - lastCaptureCount, greedy);
      } else {
        Required(atom, min, max, greedy, check, p, x);
      }
    }

    /** simple_greedy_quant, its operands and a match around the atom */
    method SimpleQuantify(atom: nat, min: nat, max: nat, len: nat, ghost p: seq<Byte>, ghost x: seq<Instr>)
      requires byteCode == p + EncAll(x) && |p| == atom
      modifies this`byteCode
      ensures byteCode == p + ((([38] + QuantOperands(SizeAll(x) + 1, min, max, len)) + EncAll(x)) + [14])
    {
      hide EncAll, U32, SizeAll;
      Put([14]);
      Assoc3(p, EncAll(x), [14]);
      SliceFacts(p, EncAll(x) + [14]);
      var size := |byteCode| - atom;
      InsertBytes(atom, [38] + QuantOperands(size, min, max, len));
      Assoc3([38] + QuantOperands(size, min, max, len), EncAll(x), [14]);
    }

    /** quant_min == 0 */
    method MayBeSkipped(atom: nat, lastCaptureCount: nat, max: nat, greedy: bool, check: bool,
                        ghost p: seq<Byte>, ghost x: seq<Instr>)
      requires byteCode == p + EncAll(x) && |p| == atom && lastCaptureCount <= captureCount && max <= INT32_MAX
      requires check == NeedCheckAdvance(x) && !UsesSimpleQuant(x, max, greedy)
      modifies this`byteCode
      ensures byteCode == p + EncAll(RepeatCode(x, lastCaptureCount, captureCount - lastCaptureCount, 0, max, greedy))
    {
      hide EncAll, U32, Scan, SimpleLength, SizeAll, LoopCode, Round;
      var lastAtomStart := atom;
      ghost var q, groups := p, captureCount - lastCaptureCount;
      SliceFacts(p, EncAll(x));
      if lastCaptureCount != captureCount {
        var reset := [17, lastCaptureCount % 256, (captureCount - 1) % 256];
        InsertBytes(lastAtomStart, reset);
        lastAtomStart := lastAtomStart + 3;
        q := p + reset;
        Assoc3(p, reset, EncAll(x));
        EncOne(SaveReset(lastCaptureCount, captureCount - 1));
      }
      assert byteCode == q + EncAll(x) && |q| == lastAtomStart;
      ghost var tail := if max == 1 then [Split(greedy, RoundSize(x, check))] + Round(x, check)
                        else LoopCode(x, check, Extra(0, max), greedy);
      if max == 0 {
        SliceFacts(q, EncAll(x));
        byteCode := byteCode[..lastAtomStart];
        EncNoLoop(x, check, greedy);
        assert q + [] == q;
      } else if max == 1 || max == INT32_MAX {
        SplitAround(lastAtomStart, max == INT32_MAX, greedy, check, q, x);
      } else {
        CountAround(lastAtomStart, max, greedy, check, q, x);
      }
      assert byteCode == q + EncAll(tail);
      EncReset(p, lastCaptureCount, groups, tail);
    }

    /** A split before the round, and a goto back to it when the round may be repeated. */
    method SplitAround(atom: nat, hasGoto: bool, greedy: bool, check: bool, ghost q: seq<Byte>, ghost x: seq<Instr>)
      requires byteCode == q + EncAll(x) && |q| == atom
      modifies this`byteCode
      ensures byteCode == q + EncAll(if hasGoto then LoopCode(x, check, Unlimited, greedy)
                                     else [Split(greedy, RoundSize(x, check))] + Round(x, check))
    {
      hide EncAll, Enc, U32, SizeAll, Round, LoopCode;
      var len := |byteCode| - atom;
      var split := [12 + Flag(greedy)] + U32(len + 5 * Flag(hasGoto) + Flag(check) * 2);
      SliceFacts(q, EncAll(x));
      if check {
        InsertBytes(atom, split + [35]);
        Put([36]);
      } else {
        InsertBytes(atom, split);
      }
      EncRound(q, split, x, check);
      assert byteCode == q + (split + EncAll(Round(x, check)));
      SizeRound(x, check);
      if hasGoto {
        EmitGoto(11, atom);
        EncUnlimited(q, x, check, greedy);
      } else {
        EncFirst(Split(greedy, RoundSize(x, check)), Round(x, check));
        EncSplit(greedy, RoundSize(x, check));
      }
    }

    /** push_i32, split, round, loop, drop */
    method CountAround(atom: nat, max: nat, greedy: bool, check: bool, ghost q: seq<Byte>, ghost x: seq<Instr>)
      requires byteCode == q + EncAll(x) && |q| == atom && 0 < max
      modifies this`byteCode
      ensures byteCode == q + EncAll(LoopCode(x, check, Times(max), greedy))
    {
      hide EncAll, U32, SizeAll, Round;
      var len := |byteCode| - atom;
      var head := ([19] + U32(max)) + ([12 + Flag(greedy)] + U32(len + 5 + Flag(check) * 2));
      SliceFacts(q, EncAll(x));
      if check {
        InsertBytes(atom, head + [35]);
        Put([36]);
      } else {
        InsertBytes(atom, head);
      }
      EncRound(q, head, x, check);
      SizeRound(x, check);
      EmitGoto(18, atom + 5);
      Put([20]);
      EncCounted(q, x, check, max, greedy);
    }

    /** quant_min > 0: mandatory rounds, then a copy of the atom inside a loop. */
    method Required(atom: nat, min: nat, max: nat, greedy: bool, check: bool, ghost p: seq<Byte>, ghost x: seq<Instr>)
      requires byteCode == p + EncAll(x) && |p| == atom && 0 < min <= max <= INT32_MAX
      requires check == NeedCheckAdvance(x) && !UsesSimpleQuant(x, max, greedy)
      requires !(min == 1 && max == INT32_MAX && !check)
      modifies this`byteCode
      ensures forall cc: nat, groups: nat ::
        byteCode == p + EncAll(RepeatCode(x, cc, groups, min, max, greedy))
    {
      hide EncAll, U32, Scan, SimpleLength, SizeAll, LoopCode;
      var len := |byteCode| - atom;
      var lastAtomStart := atom;
      ghost var head := x;
      if min != 1 {
        SliceFacts(p, EncAll(x));
        InsertBytes(lastAtomStart, [19] + U32(min));
        lastAtomStart := lastAtomStart + 5;
        EmitGoto(18, lastAtomStart);
        Put([20]);
        head := [PushI32(min)] + (x + [Loop(-(SizeAll(x) + 5)), Drop]);
        EncHead(p, x, min);
      }
      assert byteCode == p + EncAll(head);
      assert byteCode[lastAtomStart..lastAtomStart + len] == EncAll(x) by {
        CopyFacts(p, x, min);
      }
      if max == INT32_MAX {
        AppendLoop(lastAtomStart, len, Unlimited, greedy, check, p, head, x);
      } else if max > min {
        AppendLoop(lastAtomStart, len, Times(max - min), greedy, check, p, head, x);
      } else {
        EncNoLoop(x, check, greedy);
        EncAllAppend(head, LoopCode(x, check, Times(0), greedy));
        assert EncAll(head) + [] == EncAll(head);
      }
    }

    /** A loop at the end, around a copy of bytes emitted before (dbuf_put_self). */
    method AppendLoop(from: nat, len: nat, left: Count, greedy: bool, check: bool,
                      ghost p: seq<Byte>, ghost head: seq<Instr>, ghost x: seq<Instr>)
      requires byteCode == p + EncAll(head) && left != Times(0)
      requires from + len <= |byteCode| && byteCode[from..from + len] == EncAll(x)
      modifies this`byteCode
      ensures byteCode == p + EncAll(head + LoopCode(x, check, left, greedy))
    {
      hide EncAll, U32, SizeAll, Round, LoopCode;
      ghost var q := byteCode;
      if left.Times? {
        Put([19] + U32(left.n));
      }
      var pos := |byteCode|;
      ghost var before := byteCode;
      var operand := EmitOpU32(12 + Flag(greedy), len + 5 + Flag(check) * 2);
      if check {
        Put([35]);
      }
      assert byteCode[from..from + len] == q[from..from + len];
      Put(byteCode[from..from + len]);
      if check {
        Put([36]);
      }
      EncRoundAfter(before, [12 + Flag(greedy)] + U32(len + 5 + Flag(check) * 2), x, check);
      SizeRound(x, check);
      EmitGoto(if left.Unlimited? then 11 else 18, pos);
      if left.Times? {
        Put([20]);
        EncCountedAfter(q, x, check, left.n, greedy);
      } else {
        EncUnlimited(q, x, check, greedy);
      }
      EncAllAppend(head, LoopCode(x, check, left, greedy));
      Assoc3(p, EncAll(head), EncAll(LoopCode(x, check, left, greedy)));
    }
  }

  // ---------- sequences ----------

  lemma Assoc3(a: seq<Byte>, b: seq<Byte>, c: seq<Byte>)
    ensures (a + b) + c == a + (b + c)
  {
  }

  lemma Assoc4(a: seq<Byte>, b: seq<Byte>, c: seq<Byte>, d: seq<Byte>)
    ensures ((a + b) + c) + d == a + (b + (c + d))
  {
  }

  lemma SliceFacts(p: seq<Byte>, x: seq<Byte>)
    ensures (p + x)[..|p|] == p && (p + x)[|p|..] == x
  {
  }

  lemma PatchFacts(q: seq<Byte>, old4: seq<Byte>, new4: seq<Byte>, y: seq<Byte>)
    requires |old4| == 4 && |new4| == 4
    ensures var z, pos := q + ([11] + old4) + y, |q| + 1;
            z[..pos] + new4 + z[pos + 4..] == q + (([11] + new4) + y)
  {
    PatchFactsAt(q, 11, old4, new4, y);
    assert q + ([11] + new4) + y == q + (([11] + new4) + y);
  }

  lemma PatchFactsAt(q: seq<Byte>, op: Byte, old4: seq<Byte>, new4: seq<Byte>, y: seq<Byte>)
    requires |old4| == 4 && |new4| == 4
    ensures var z, pos := q + ([op] + old4) + y, |q| + 1;
            z[..pos] + new4 + z[pos + 4..] == q + ([op] + new4) + y
  {
    var z := q + ([op] + old4) + y;
    assert z[..|q| + 1] == q + [op];
    assert z[|q| + 5..] == y;
  }

  // ---------- encodings of the shapes ----------

  lemma EncNothing(p: seq<Byte>)
    ensures p == p + EncAll([])
  {
  }

  lemma LeafBytes(canon: Canon, r: Regex, cc: nat)
    requires r.AnyChar? || IsAssertion(r) || r.Backref?
    ensures EncAll(Code(canon, r, cc)) == Enc(Code(canon, r, cc)[0])
  {
    hide Enc, EncAll;
    EncOne(Code(canon, r, cc)[0]);
  }

  lemma EncOne(i: Instr)
    ensures EncAll([i]) == Enc(i)
  {
    hide Enc;
    assert [i][1..] == [];
  }

  lemma EncFirst(i: Instr, y: seq<Instr>)
    ensures EncAll([i] + y) == Enc(i) + EncAll(y)
  {
    hide Enc;
    assert ([i] + y)[1..] == y;
  }

  lemma EncTwo(x: seq<Instr>, i: Instr)
    ensures EncAll(x + [i]) == EncAll(x) + Enc(i)
  {
    hide Enc, EncAll;
    EncAllAppend(x, [i]);
    EncOne(i);
  }

  lemma EncBracket(i: Instr, x: seq<Instr>, j: Instr)
    ensures EncAll([i] + (x + [j])) == Enc(i) + (EncAll(x) + Enc(j))
    ensures EncAll([i] + (x + [j])) == (Enc(i) + EncAll(x)) + Enc(j)
  {
    hide Enc, EncAll;
    EncFirst(i, x + [j]);
    EncTwo(x, j);
    Assoc3(Enc(i), EncAll(x), Enc(j));
  }

  lemma EncGroup(cc: nat, x: seq<Instr>)
    requires cc < 256
    ensures EncAll(GroupCode(cc, x)) == [15, cc] + (EncAll(x) + [16, cc])
  {
    hide EncAll;
    EncBracket(SaveStart(cc), x, SaveEnd(cc));
  }

  lemma EncLook(canon: Canon, r: Regex, cc: nat, p: seq<Byte>)
    requires r.Look?
    ensures var x := Code(canon, r.body, cc);
            (p + ([33 + Flag(r.negated)] + U32(SizeAll(x) + 1))) + (EncAll(x) + [14]) == p + EncAll(Code(canon, r, cc))
  {
    hide Code, EncAll, U32, SizeAll;
    var x := Code(canon, r.body, cc);
    CodeLook(canon, r, cc);
    EncBracket(Lookahead(r.negated, SizeAll(x) + 1), x, Match);
    Assoc3(p, [33 + Flag(r.negated)] + U32(SizeAll(x) + 1), EncAll(x) + [14]);
  }

  lemma EncAlternate(x: seq<Instr>, y: seq<Instr>)
    ensures EncAll(AlternateCode(x, y)) ==
            ([13] + U32(SizeAll(x) + 5)) + (EncAll(x) + (([11] + U32(SizeAll(y))) + EncAll(y)))
  {
    hide EncAll, SizeAll, U32;
    var i, j := Split(true, SizeAll(x) + 5), Goto(SizeAll(y));
    EncFirst(i, x + ([j] + y));
    EncAllAppend(x, [j] + y);
    EncFirst(j, y);
  }

  lemma SizeRound(x: seq<Instr>, check: bool)
    ensures |EncAll(Round(x, check))| == SizeAll(x) + 2 * Flag(check)
    ensures SizeAll(Round(x, check)) == SizeAll(x) + 2 * Flag(check)
  {
    hide EncAll;
    if check {
      SizeAllAppend([PushCharPos] + x, [CheckAdvance]);
      SizeAllAppend([PushCharPos], x);
    }
  }

  lemma EncRoundOf(x: seq<Instr>, check: bool)
    ensures EncAll(Round(x, check)) == if check then ([35] + EncAll(x)) + [36] else EncAll(x)
  {
    hide EncAll;
    if check {
      assert Round(x, true) == [PushCharPos] + (x + [CheckAdvance]);
      EncBracket(PushCharPos, x, CheckAdvance);
    }
  }

  lemma EncRound(q: seq<Byte>, head: seq<Byte>, x: seq<Instr>, check: bool)
    ensures check ==> (q + ((head + [35]) + EncAll(x))) + [36] == q + (head + EncAll(Round(x, check)))
    ensures !check ==> EncAll(x) == EncAll(Round(x, check))
  {
    hide EncAll, Round;
    EncRoundOf(x, check);
  }

  lemma EncRoundAfter(q: seq<Byte>, head: seq<Byte>, x: seq<Instr>, check: bool)
    ensures check ==> (((q + head) + [35]) + EncAll(x)) + [36] == q + (head + EncAll(Round(x, check)))
    ensures !check ==> (q + head) + EncAll(x) == q + (head + EncAll(Round(x, check)))
  {
    hide EncAll, Round;
    EncRoundOf(x, check);
  }

  lemma EncUnlimited(q: seq<Byte>, x: seq<Instr>, check: bool, greedy: bool)
    ensures var n: int := RoundSize(x, check); var r := EncAll(Round(x, check));
            (q + (([12 + Flag(greedy)] + U32(n + 5)) + r)) + ([11] + U32(-(n + 10))) ==
            q + EncAll(LoopCode(x, check, Unlimited, greedy))
  {
    hide EncAll, Round, SizeAll, U32;
    var n: int := RoundSize(x, check);
    EncBracket(Split(greedy, n + 5), Round(x, check), Goto(-(n + 10)));
    Assoc3(q, ([12 + Flag(greedy)] + U32(n + 5)) + EncAll(Round(x, check)), [11] + U32(-(n + 10)));
  }

  lemma EncSimple(x: seq<Instr>, cc: nat, groups: nat, min: nat, max: nat, greedy: bool)
    requires UsesSimpleQuant(x, max, greedy)
    ensures EncAll(RepeatCode(x, cc, groups, min, max, greedy)) ==
            (([38] + QuantOperands(SizeAll(x) + 1, min, max, SimpleLength(x))) + EncAll(x)) + [14]
  {
    hide EncAll, SizeAll, QuantOperands, SimpleLength, Scan;
    EncBracket(SimpleGreedyQuant(SizeAll(x) + 1, min, max, SimpleLength(x)), x, Match);
  }

  lemma EncPlus(p: seq<Byte>, x: seq<Instr>, cc: nat, groups: nat, greedy: bool)
    requires !UsesSimpleQuant(x, INT32_MAX, greedy) && !NeedCheckAdvance(x)
    ensures (p + EncAll(x)) + ([12 + Flag(!greedy)] + U32(-(SizeAll(x) + 5))) ==
            p + EncAll(RepeatCode(x, cc, groups, 1, INT32_MAX, greedy))
  {
    hide EncAll, SizeAll, U32, SimpleLength, Scan;
    EncTwo(x, Split(!greedy, -(SizeAll(x) + 5)));
    EncSplit(!greedy, -(SizeAll(x) + 5));
    Assoc3(p, EncAll(x), [12 + Flag(!greedy)] + U32(-(SizeAll(x) + 5)));
  }

  lemma EncBackDrop(back: Instr)
    requires back.Loop?
    ensures EncAll([back, Drop]) == ([18] + U32(back.off)) + [20]
  {
    hide EncAll, U32;
    assert [back, Drop] == [back] + [Drop];
    EncFirst(back, [Drop]);
    EncOne(Drop);
  }

  lemma EncCountedOf(x: seq<Instr>, check: bool, k: nat, greedy: bool)
    requires k > 0
    ensures var n: int := RoundSize(x, check);
            EncAll(LoopCode(x, check, Times(k), greedy)) ==
            ([19] + U32(k)) + (([12 + Flag(greedy)] + U32(n + 5)) +
            (EncAll(Round(x, check)) + (([18] + U32(-(n + 10))) + [20])))
  {
    hide EncAll, Round, SizeAll, U32, Enc;
    var n: int := RoundSize(x, check);
    var back, split := Loop(-(n + 10)), Split(greedy, n + 5);
    EncFirst(PushI32(k), [split] + (Round(x, check) + [back, Drop]));
    EncFirst(split, Round(x, check) + [back, Drop]);
    EncAllAppend(Round(x, check), [back, Drop]);
    EncBackDrop(back);
    EncPush(k);
    EncSplit(greedy, n + 5);
  }

  lemma EncPush(k: int)
    ensures Enc(PushI32(k)) == [19] + U32(k)
  {
    hide U32;
  }

  lemma EncSplit(greedy: bool, off: int)
    ensures Enc(Split(greedy, off)) == [12 + Flag(greedy)] + U32(off)
  {
    hide U32;
  }

  lemma EncCounted(q: seq<Byte>, x: seq<Instr>, check: bool, k: nat, greedy: bool)
    requires k > 0
    ensures var n: int := RoundSize(x, check); var r := EncAll(Round(x, check));
            var head := ([19] + U32(k)) + ([12 + Flag(greedy)] + U32(n + 5));
            ((q + (head + r)) + ([18] + U32(-(n + 10)))) + [20] == q + EncAll(LoopCode(x, check, Times(k), greedy))
  {
    hide EncAll, Round, SizeAll, U32, LoopCode;
    EncCountedOf(x, check, k, greedy);
  }

  lemma EncCountedAfter(q: seq<Byte>, x: seq<Instr>, check: bool, k: nat, greedy: bool)
    requires k > 0
    ensures var n: int := RoundSize(x, check); var r := EncAll(Round(x, check));
            (((q + ([19] + U32(k))) + (([12 + Flag(greedy)] + U32(n + 5)) + r)) + ([18] + U32(-(n + 10)))) + [20] ==
            q + EncAll(LoopCode(x, check, Times(k), greedy))
  {
    hide EncAll, Round, SizeAll, U32, LoopCode;
    EncCountedOf(x, check, k, greedy);
  }

  lemma EncNoLoop(x: seq<Instr>, check: bool, greedy: bool)
    ensures LoopCode(x, check, Times(0), greedy) == [] && EncAll([]) == []
  {
  }

  lemma EncReset(p: seq<Byte>, cc: nat, groups: nat, tail: seq<Instr>)
    ensures EncAll(ResetCode(cc, groups) + tail) ==
            (if groups > 0 then [17, cc % 256, (cc + groups - 1) % 256] else []) + EncAll(tail)
    ensures groups > 0 ==> (p + [17, cc % 256, (cc + groups - 1) % 256]) + EncAll(tail) ==
                           p + EncAll(ResetCode(cc, groups) + tail)
    ensures groups == 0 ==> EncAll(tail) == EncAll(ResetCode(cc, groups) + tail)
  {
    hide EncAll;
    if groups > 0 {
      EncFirst(SaveReset(cc, cc + groups - 1), tail);
    } else {
      assert [] + tail == tail;
    }
  }

  lemma EncHead(p: seq<Byte>, x: seq<Instr>, min: nat)
    ensures (((p + (([19] + U32(min)) + EncAll(x))) + ([18] + U32(-(SizeAll(x) + 5)))) + [20]) ==
            p + EncAll([PushI32(min)] + (x + [Loop(-(SizeAll(x) + 5)), Drop]))
  {
    hide EncAll, SizeAll, U32, Enc;
    var back := Loop(-(SizeAll(x) + 5));
    EncFirst(PushI32(min), x + [back, Drop]);
    EncAllAppend(x, [back, Drop]);
    EncBackDrop(back);
    EncPush(min);
  }

  /** The bytes of the atom inside the mandatory part. */
  lemma CopyFacts(p: seq<Byte>, x: seq<Instr>, min: nat)
    ensures (p + EncAll(x))[|p|..|p| + SizeAll(x)] == EncAll(x)
    ensures var z := p + EncAll([PushI32(min)] + (x + [Loop(-(SizeAll(x) + 5)), Drop]));
            |p| + 5 + SizeAll(x) <= |z| && z[|p| + 5..|p| + 5 + SizeAll(x)] == EncAll(x)
  {
    hide EncAll, SizeAll, U32;
    var back := [Loop(-(SizeAll(x) + 5)), Drop];
    EncFirst(PushI32(min), x + back);
    EncAllAppend(x, back);
    var z := p + EncAll([PushI32(min)] + (x + back));
    assert z == (p + Enc(PushI32(min))) + EncAll(x) + EncAll(back);
  }
}
