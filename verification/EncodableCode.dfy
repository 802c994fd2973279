// Everything the compiler emits fits the operand fields of the byte code.
module EncodableCode {
  import opened Bytecode
  import opened Subjects
  import opened Regex
  import opened CodeGen
  import opened StraightLine
  import opened Equations

  /** re_emit_range rejects classes with 65535 ranges or more. */
  predicate RangesFit(r: Regex)
  {
    match r
    case Class(points, _) => |points| / 2 < RANGE_COUNT_MAX
    case Concat(a, b) => RangesFit(a) && RangesFit(b)
    case Alternate(a, b) => RangesFit(a) && RangesFit(b)
    case Group(a) => RangesFit(a)
    case Look(_, a) => RangesFit(a)
    case Repeat(a, _, _) => RangesFit(a)
    case _ => true
  }

  predicate AllEncodable(ins: seq<Instr>)
  {
    ins == [] || (Encodable(ins[0]) && AllEncodable(ins[1..]))
  }

  lemma {:induction false} EncodableAppend(x: seq<Instr>, y: seq<Instr>)
    ensures AllEncodable(x + y) <==> AllEncodable(x) && AllEncodable(y)
  {
    hide Encodable;
    if x == [] {
      assert x + y == y;
    } else {
      assert (x + y)[0] == x[0] && (x + y)[1..] == x[1..] + y;
      EncodableAppend(x[1..], y);
    }
  }

  lemma EncodableFirst(i: Instr, y: seq<Instr>)
    ensures AllEncodable([i] + y) <==> Encodable(i) && AllEncodable(y)
  {
    hide Encodable;
    assert ([i] + y)[1..] == y;
  }

  lemma {:induction false} EncodableEach(ins: seq<Instr>)
    requires AllEncodable(ins)
    ensures forall i :: i in ins ==> Encodable(i)
  {
    hide Encodable;
    if ins != [] {
      EncodableEach(ins[1..]);
      assert ins == [ins[0]] + ins[1..];
    }
  }

  lemma {:induction false} SimpleLengthBounded(ins: seq<Instr>)
    ensures SimpleLength(ins) <= SizeAll(ins)
  {
    hide Size, SingleChar, Assertion;
    if ins != [] {
      SimpleLengthBounded(ins[1..]);
    }
  }

  // ---------- the pieces ----------

  lemma ClassEncodable(points: Points, icase: bool)
    requires |points| / 2 < RANGE_COUNT_MAX
    ensures AllEncodable(ClassCode(points, icase))
  {
    var code := ClassCode(points, icase);
    assert code[1..] == [];
    if points != [] {
      var n := |points| / 2;
      assert points[2 * n - 2] < points[2 * n - 1];
      forall k | 0 <= k < n ensures 0 <= points[2 * k] < points[2 * k + 1] <= points[2 * n - 1] {
        if k < n - 1 { assert points[2 * k + 1] < points[2 * n - 1]; }
      }
      forall k | 0 <= k < n - 1 ensures points[2 * k + 1] < points[2 * n - 2] {
      }
    }
  }

  lemma LeafEncodable(canon: Canon, r: Regex, cc: nat)
    requires !r.Concat? && !r.Alternate? && !r.Group? && !r.Look? && !r.Repeat? && RangesFit(r)
    ensures AllEncodable(Code(canon, r, cc))
  {
    if r.Class? {
      ClassEncodable(r.points, r.icase);
    } else if !r.Empty? {
      assert Code(canon, r, cc)[1..] == [];
    }
  }

  lemma RoundEncodable(a: seq<Instr>, check: bool, tail: seq<Instr>)
    requires AllEncodable(a)
    ensures AllEncodable(Round(a, check) + tail) <==> AllEncodable(tail)
  {
    hide Encodable, SizeAll;
    EncodableAppend(Round(a, check), tail);
    if check {
      assert Round(a, check) == [PushCharPos] + (a + [CheckAdvance]);
      EncodableFirst(PushCharPos, a + [CheckAdvance]);
      EncodableAppend(a, [CheckAdvance]);
      EncodableFirst(CheckAdvance, []);
      assert [CheckAdvance] + [] == [CheckAdvance];
      Plain();
    }
  }

  lemma Plain()
    ensures Encodable(PushCharPos) && Encodable(CheckAdvance) && Encodable(Match) && Encodable(Drop)
  {
  }

  lemma LoopOps(n: int, k: nat, greedy: bool)
    requires 0 <= n <= CODE_SIZE_MAX + 2 && k <= INT32_MAX
    ensures Encodable(Goto(-(n + 10))) && Encodable(Loop(-(n + 10))) && Encodable(Drop)
    ensures Encodable(Split(greedy, n + 5)) && Encodable(PushI32(k))
  {
  }

  lemma LoopEncodable(a: seq<Instr>, check: bool, left: Count, greedy: bool)
    requires AllEncodable(a) && SizeAll(a) <= CODE_SIZE_MAX
    requires left.Times? ==> left.n <= INT32_MAX
    ensures AllEncodable(LoopCode(a, check, left, greedy))
  {
    hide Round, SizeAll, AllEncodable, Encodable;
    var n: int := RoundSize(a, check);
    LoopOps(n, if left.Times? then left.n else 0, greedy);
    NoneEncodable();
    match left
    case Unlimited =>
      var t := [Goto(-(n + 10))];
      assert t + [] == t;
      EncodableFirst(Goto(-(n + 10)), []);
      RoundEncodable(a, check, t);
      EncodableFirst(Split(greedy, n + 5), Round(a, check) + t);
    case Times(k) =>
      if k > 0 {
        var t := [Loop(-(n + 10)), Drop];
        EncodableFirst(Drop, []);
        assert [Drop] + [] == [Drop];
        EncodableFirst(Loop(-(n + 10)), [Drop]);
        assert [Loop(-(n + 10))] + [Drop] == t;
        RoundEncodable(a, check, t);
        EncodableFirst(Split(greedy, n + 5), Round(a, check) + t);
        EncodableFirst(PushI32(k), [Split(greedy, n + 5)] + (Round(a, check) + t));
      }
  }

  lemma RepeatEncodable(a: seq<Instr>, cc: nat, groups: nat, min: nat, max: nat, greedy: bool)
    requires AllEncodable(a) && SizeAll(a) <= CODE_SIZE_MAX && cc + groups <= 255 && min <= max <= INT32_MAX
    ensures AllEncodable(RepeatCode(a, cc, groups, min, max, greedy))
  {
    hide Round, SizeAll, LoopCode, Scan, AllEncodable;
    var check := NeedCheckAdvance(a);
    var n: int := RoundSize(a, check);
    LoopEncodable(a, check, Extra(min, max), greedy);
    if UsesSimpleQuant(a, max, greedy) {
      SimpleLengthBounded(a);
      ListEncodable(Match);
      EncodableAppend(a, [Match]);
      EncodableFirst(SimpleGreedyQuant(SizeAll(a) + 1, min, max, SimpleLength(a)), a + [Match]);
    } else if min == 0 {
      var tail := if max == 1 then [Split(greedy, n)] + Round(a, check) else LoopCode(a, check, Extra(0, max), greedy);
      RoundEncodable(a, check, []);
      assert Round(a, check) + [] == Round(a, check);
      NoneEncodable();
      EncodableFirst(Split(greedy, n), Round(a, check));
      EncodableAppend(ResetCode(cc, groups), tail);
      if groups > 0 { ListEncodable(SaveReset(cc, cc + groups - 1)); }
    } else if min == 1 && max == INT32_MAX && !check {
      ListEncodable(Split(!greedy, -(n + 5)));
      EncodableAppend(a, [Split(!greedy, -(n + 5))]);
    } else {
      HeadEncodable(a, min);
      EncodableAppend(if min == 1 then a else [PushI32(min)] + (a + [Loop(-(SizeAll(a) + 5)), Drop]),
                      LoopCode(a, check, Extra(min, max), greedy));
    }
  }

  lemma NoneEncodable()
    ensures AllEncodable([])
  {
  }

  lemma ListEncodable(i: Instr)
    requires Encodable(i)
    ensures AllEncodable([i])
  {
    hide Encodable;
    assert [i][1..] == [];
  }

  lemma HeadEncodable(a: seq<Instr>, min: nat)
    requires AllEncodable(a) && SizeAll(a) <= CODE_SIZE_MAX && min <= INT32_MAX
    ensures AllEncodable([PushI32(min)] + (a + [Loop(-(SizeAll(a) + 5)), Drop]))
  {
    hide SizeAll;
    var back := Loop(-(SizeAll(a) + 5));
    ListEncodable(Drop);
    EncodableFirst(back, [Drop]);
    assert [back] + [Drop] == [back, Drop];
    EncodableAppend(a, [back, Drop]);
    EncodableFirst(PushI32(min), a + [back, Drop]);
  }

  /** The code of a quantified atom is at least as long as the atom, unless the atom is dropped. */
  lemma RepeatSize(a: seq<Instr>, cc: nat, groups: nat, min: nat, max: nat, greedy: bool)
    requires max > 0
    ensures SizeAll(a) <= SizeAll(RepeatCode(a, cc, groups, min, max, greedy))
  {
    hide LoopCode, Scan, SizeAll, Size, SimpleLength;
    var check := NeedCheckAdvance(a);
    var code := RepeatCode(a, cc, groups, min, max, greedy);
    if UsesSimpleQuant(a, max, greedy) {
      SizeAllAppend([SimpleGreedyQuant(SizeAll(a) + 1, min, max, SimpleLength(a))], a + [Match]);
      SizeAllAppend(a, [Match]);
    } else if min == 0 {
      RoundAtLeast(a, check);
      if max == 1 {
        var tail := [Split(greedy, RoundSize(a, check))] + Round(a, check);
        SizeAllAppend([Split(greedy, RoundSize(a, check))], Round(a, check));
        SizeAllAppend(ResetCode(cc, groups), tail);
      } else {
        LoopAtLeast(a, check, Extra(0, max), greedy);
        SizeAllAppend(ResetCode(cc, groups), LoopCode(a, check, Extra(0, max), greedy));
      }
    } else if min == 1 && max == INT32_MAX && !check {
      SizeAllAppend(a, [Split(!greedy, -(RoundSize(a, check) + 5))]);
    } else {
      var back := [Loop(-(SizeAll(a) + 5)), Drop];
      SizeAllAppend(a, back);
      SizeAllAppend([PushI32(min)], a + back);
      SizeAllAppend(if min == 1 then a else [PushI32(min)] + (a + back), LoopCode(a, check, Extra(min, max), greedy));
    }
  }

  lemma RoundAtLeast(a: seq<Instr>, check: bool)
    ensures SizeAll(a) <= SizeAll(Round(a, check))
  {
    hide Size;
    if check {
      assert Round(a, check) == [PushCharPos] + (a + [CheckAdvance]);
      SizeAllAppend([PushCharPos], a + [CheckAdvance]);
      SizeAllAppend(a, [CheckAdvance]);
    }
  }

  lemma LoopAtLeast(a: seq<Instr>, check: bool, left: Count, greedy: bool)
    requires left != Times(0)
    ensures SizeAll(a) <= SizeAll(LoopCode(a, check, left, greedy))
  {
    hide Size, Round, SizeAll;
    var n: int := RoundSize(a, check);
    RoundAtLeast(a, check);
    match left
    case Unlimited =>
      SizeAllAppend([Split(greedy, n + 5)], Round(a, check) + [Goto(-(n + 10))]);
      SizeAllAppend(Round(a, check), [Goto(-(n + 10))]);
    case Times(k) =>
      var t := [Loop(-(n + 10)), Drop];
      SizeAllAppend([PushI32(k)], [Split(greedy, n + 5)] + (Round(a, check) + t));
      SizeAllAppend([Split(greedy, n + 5)], Round(a, check) + t);
      SizeAllAppend(Round(a, check), t);
  }

  // ---------- all patterns ----------

  /** When the code is not longer than lre_bytecode_realloc allows, nothing in it overflows its field. */
  lemma {:induction false} CodeEncodable(canon: Canon, r: Regex, cc: nat)
    requires RangesFit(r) && cc + Groups(r) <= 255 && SizeAll(Code(canon, r, cc)) <= CODE_SIZE_MAX
    ensures AllEncodable(Code(canon, r, cc))
    decreases r
  {
    hide Code, AllEncodable, SizeAll, RepeatCode, AlternateCode;
    match r
    case Concat(a, b) =>
      var x, y := Code(canon, a, cc), Code(canon, b, cc + Groups(a));
      CodeConcat(canon, r, cc);
      SizeAllAppend(x, y);
      CodeEncodable(canon, a, cc);
      CodeEncodable(canon, b, cc + Groups(a));
      EncodableAppend(x, y);
    case Alternate(a, b) =>
      var x, y := Code(canon, a, cc), Code(canon, b, cc + Groups(a));
      CodeAlternate(canon, r, cc);
      AlternateParts(x, y);
      CodeEncodable(canon, a, cc);
      CodeEncodable(canon, b, cc + Groups(a));
    case Group(a) =>
      CodeGroup(canon, r, cc);
      BracketParts(SaveStart(cc), Code(canon, a, cc + 1), SaveEnd(cc));
      CodeEncodable(canon, a, cc + 1);
    case Look(negated, a) =>
      var x := Code(canon, a, cc);
      CodeLook(canon, r, cc);
      BracketParts(Lookahead(negated, SizeAll(x) + 1), x, Match);
      CodeEncodable(canon, a, cc);
    case Repeat(a, times, greedy) =>
      RepeatCase(canon, r, cc);
    case _ => LeafEncodable(canon, r, cc);
  }

  lemma AlternateParts(x: seq<Instr>, y: seq<Instr>)
    ensures SizeAll(AlternateCode(x, y)) == SizeAll(x) + SizeAll(y) + 10
    ensures AllEncodable(x) && AllEncodable(y) && SizeAll(AlternateCode(x, y)) <= CODE_SIZE_MAX ==>
            AllEncodable(AlternateCode(x, y))
  {
    hide AllEncodable, SizeAll;
    var i, j := Split(true, SizeAll(x) + 5), Goto(SizeAll(y));
    SizeAllAppend([i], x + ([j] + y));
    SizeAllAppend(x, [j] + y);
    SizeAllAppend([j], y);
    SizeOf(i);
    SizeOf(j);
    EncodableFirst(j, y);
    EncodableAppend(x, [j] + y);
    EncodableFirst(i, x + ([j] + y));
  }

  lemma SizeOf(i: Instr)
    ensures SizeAll([i]) == Size(i)
  {
    hide Size;
    assert [i][1..] == [];
  }

  lemma BracketParts(i: Instr, x: seq<Instr>, j: Instr)
    ensures SizeAll(x) < SizeAll([i] + (x + [j]))
    ensures AllEncodable([i] + (x + [j])) <==> Encodable(i) && AllEncodable(x) && Encodable(j)
  {
    hide AllEncodable, SizeAll, Encodable, Size;
    SizeAllAppend([i], x + [j]);
    SizeAllAppend(x, [j]);
    SizeOf(i);
    EncodableFirst(i, x + [j]);
    EncodableAppend(x, [j]);
    EncodableFirst(j, []);
    assert [j] + [] == [j];
    NoneEncodable();
  }

  /** With max == 0 the atom is not emitted at all, so nothing is known about its size. */
  lemma {:induction false} RepeatCase(canon: Canon, r: Regex, cc: nat)
    requires r.Repeat? && RangesFit(r) && cc + Groups(r) <= 255 && SizeAll(Code(canon, r, cc)) <= CODE_SIZE_MAX
    ensures AllEncodable(Code(canon, r, cc))
    decreases r, 0
  {
    hide Code, AllEncodable, SizeAll, RepeatCode;
    var a, x := r.body, Code(canon, r.body, cc);
    CodeRepeat(canon, r, cc);
    if r.times.max == 0 {
      DroppedEncodable(x, cc, Groups(a), r.greedy);
    } else {
      RepeatSize(x, cc, Groups(a), r.times.min, r.times.max, r.greedy);
      CodeEncodable(canon, a, cc);
      RepeatEncodable(x, cc, Groups(a), r.times.min, r.times.max, r.greedy);
    }
  }

  lemma DroppedEncodable(a: seq<Instr>, cc: nat, groups: nat, greedy: bool)
    requires cc + groups <= 255
    ensures AllEncodable(RepeatCode(a, cc, groups, 0, 0, greedy))
  {
    hide Scan, SizeAll;
    var code := RepeatCode(a, cc, groups, 0, 0, greedy);
    assert code == ResetCode(cc, groups);
    if groups > 0 {
      assert code[1..] == [];
    }
  }
}
