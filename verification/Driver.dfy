// lre_compile and lre_exec: the header, the search prefix, and the loop of the matcher with its state in place.
module Driver {
  import opened Bytecode
  import opened Subjects
  import opened Regex
  import opened Matcher
  import opened Simulation
  import opened CodeGen
  import opened EncodableCode
  import opened Engine
  import opened StackDepth
  import opened Scans
  import opened Parser

  const FLAG_STICKY := 32

  predicate Sticky(flags: nat) { flags / FLAG_STICKY % 2 == 1 }

  /** When lre_compile succeeds. */
  predicate Compilable(canon: Canon, r: Regex, sticky: bool)
  {
    var code := ProgramCode(canon, r, sticky);
    Accepted(r, 1) && HEADER_LEN + SizeAll(code) <= CODE_SIZE_MAX && MaxDepth(code, 0, 0) >= 0
  }

  /** A correct result of lre_compile: header fields, and behind them the program. */
  ghost predicate Compiled(code: seq<Byte>, flags: nat, canon: Canon, r: Regex)
  {
    |code| >= HEADER_LEN &&
    GetU16(code, 0) == flags &&
    code[2] as int == 1 + Groups(r) &&
    code[3] as int == MaxDepth(ProgramCode(canon, r, Sticky(flags)), 0, 0) &&
    GetU32(code, 4) == |code| - HEADER_LEN &&
    Loaded(code, HEADER_LEN, ProgramCode(canon, r, Sticky(flags)))
  }

  /** Patterns without quantifiers compile whenever they are within the limits on groups, intervals and size. */
  lemma RepeatFreeCompiles(canon: Canon, r: Regex, sticky: bool)
    requires RepeatFree(r)
    ensures Compilable(canon, r, sticky) <==> Accepted(r, 1) && HEADER_LEN + SizeAll(ProgramCode(canon, r, sticky)) <= CODE_SIZE_MAX
  {
    hide Code, MaxDepth, SizeAll, Accepted;
    RepeatFreeStill(canon, r, 1);
    StillDepth(ProgramCode(canon, r, sticky));
  }

  lemma ProgramEncodable(canon: Canon, r: Regex, sticky: bool)
    requires Compilable(canon, r, sticky)
    ensures AllEncodable(ProgramCode(canon, r, sticky)) && AllNarrow(ProgramCode(canon, r, sticky))
  {
    hide Code, AllEncodable, SizeAll, AllNarrow, MaxDepth, Encodable;
    var x := Code(canon, r, 1);
    var tail := x + [SaveEnd(0), Match];
    var prefix := if sticky then [] else [Split(false, 6), Any, Goto(-11)];
    SizeAllAppend(prefix, [SaveStart(0)] + tail);
    SizeAllAppend([SaveStart(0)], tail);
    SizeAllAppend(x, [SaveEnd(0), Match]);
    CodeEncodable(canon, r, 1);
    FixedEncodable();
    EncodableAppend(x, [SaveEnd(0), Match]);
    EncodableFirst(SaveStart(0), tail);
    EncodableAppend(prefix, [SaveStart(0)] + tail);
    CodeNarrow(canon, r, 1);
    NarrowAppend(x, [SaveEnd(0), Match]);
    NarrowFirst(SaveStart(0), tail);
    NarrowAppend(prefix, [SaveStart(0)] + tail);
  }

  lemma FixedEncodable()
    ensures AllEncodable([]) && AllEncodable([SaveEnd(0), Match]) && AllEncodable([Split(false, 6), Any, Goto(-11)])
    ensures AllNarrow([]) && AllNarrow([SaveEnd(0), Match]) && AllNarrow([Split(false, 6), Any, Goto(-11)])
    ensures Encodable(SaveStart(0))
  {
    assert [SaveEnd(0), Match][1..] == [Match] && [Match][1..] == [];
    assert [Split(false, 6), Any, Goto(-11)][1..] == [Any, Goto(-11)];
    assert [Any, Goto(-11)][1..] == [Goto(-11)] && [Goto(-11)][1..] == [];
    assert AllEncodable([Goto(-11)]) && AllEncodable([Match]);
  }

  lemma ProgramBytes(canon: Canon, r: Regex, sticky: bool)
    ensures EncAll(ProgramCode(canon, r, sticky)) ==
            (((if sticky then [] else ([12] + U32(6)) + [6] + ([11] + U32(-11))) + [15, 0]) + EncAll(Code(canon, r, 1))) +
            [16, 0, 14]
  {
    hide Code, EncAll, U32, Enc;
    var x := Code(canon, r, 1);
    var tail := x + [SaveEnd(0), Match];
    EncFixed();
    FixedBytes();
    EncAllAppend(x, [SaveEnd(0), Match]);
    EncFirst(SaveStart(0), tail);
    if !sticky {
      EncAllAppend([Split(false, 6), Any, Goto(-11)], [SaveStart(0)] + tail);
    } else {
      assert [] + ([SaveStart(0)] + tail) == [SaveStart(0)] + tail;
    }
  }

  lemma FixedBytes()
    ensures EncAll([SaveEnd(0), Match]) == [16, 0, 14]
    ensures EncAll([Split(false, 6), Any, Goto(-11)]) == ([12] + U32(6)) + [6] + ([11] + U32(-11))
  {
    hide EncAll, U32, Enc;
    assert [SaveEnd(0), Match] == [SaveEnd(0)] + [Match];
    EncFirst(SaveEnd(0), [Match]);
    EncOne(Match);
    assert [Split(false, 6), Any, Goto(-11)] == [Split(false, 6)] + ([Any] + [Goto(-11)]);
    EncFirst(Split(false, 6), [Any] + [Goto(-11)]);
    EncFirst(Any, [Goto(-11)]);
    EncOne(Goto(-11));
    EncSplit(false, 6);
    EncFixed();
  }

  lemma EncFixed()
    ensures Enc(SaveStart(0)) == [15, 0] && Enc(SaveEnd(0)) == [16, 0] && Enc(Match) == [14] && Enc(Any) == [6]
    ensures Enc(Goto(-11)) == [11] + U32(-11)
  {
    hide U32;
  }

  /** Header, search prefix, and the pattern as group 0. */
  method EmitProgram(s: ParseState, r: Regex, flags: nat) returns (ok: bool)
    requires s.byteCode == [] && s.captureCount == 1
    modifies s
    ensures ok == Accepted(r, 1)
    ensures ok ==> s.captureCount == 1 + Groups(r)
    ensures ok ==> s.byteCode == U16(flags) + [0, 0] + U32(0) + EncAll(ProgramCode(s.canon, r, Sticky(flags)))
  {
    hide U16, U32, EncAll, Code, ProgramCode;
    var sticky := Sticky(flags);
    var header := U16(flags) + [0, 0] + U32(0);
    s.Put(header);
    if !sticky {
      var _ := s.EmitOpU32(12, 1 + 5);
      s.Put([6]);
      var _ := s.EmitOpU32(11, -(5 + 1 + 5));
    }
    s.Put([15, 0]);
    ok := s.Parse(r);
    if !ok {
      return;
    }
    s.Put([16, 0, 14]);
    ProgramBytes(s.canon, r, sticky);
    HeaderFirst(header, sticky, EncAll(Code(s.canon, r, 1)), EncAll(ProgramCode(s.canon, r, sticky)));
    assert [] + header == header;
  }

  /** lre_compile after the pattern has been read; None stands for an error message. */
  method LreCompile(r: Regex, flags: nat, canon: Canon) returns (result: Option<seq<Byte>>)
    requires flags < TWO16
    ensures result.None? <==> !Compilable(canon, r, Sticky(flags))
    ensures result.Some? ==> Compiled(result.value, flags, canon, r)
  {
    hide U16, U32, EncAll, AllEncodable, SizeAll, Loaded, MaxDepth, AllNarrow, ProgramCode, RangesFit, Groups;
    var s := new ParseState(canon);
    var ok := EmitProgram(s, r, flags);
    ghost var code := ProgramCode(canon, r, Sticky(flags));
    if !ok || |s.byteCode| > CODE_SIZE_MAX {
      return None;
    }
    ProgramNarrow(canon, r, Sticky(flags));
    BodyOf(flags, EncAll(code));
    var stackSize := ComputeStackSize(s.byteCode[HEADER_LEN..], code);
    if stackSize < 0 {
      return None;
    }
    MaxDepthSmall(code, 0, 0);
    ProgramEncodable(canon, r, Sticky(flags));
    FillHeader(s, stackSize, flags, code);
    result := Some(s.byteCode);
  }

  lemma BodyOf(flags: nat, body: seq<Byte>)
    ensures (U16(flags) + [0, 0] + U32(0) + body)[HEADER_LEN..] == body
  {
    hide U16, U32;
  }

  /** The header fields are known only at the end. */
  method FillHeader(s: ParseState, stackSize: Byte, flags: nat, ghost code: seq<Instr>)
    requires s.byteCode == U16(flags) + [0, 0] + U32(0) + EncAll(code) && flags < TWO16 && s.captureCount < 256
    requires SizeAll(code) <= CODE_SIZE_MAX && AllEncodable(code)
    modifies s`byteCode
    ensures |s.byteCode| == HEADER_LEN + SizeAll(code) && s.byteCode[2] == s.captureCount && s.byteCode[3] == stackSize
    ensures GetU16(s.byteCode, 0) == flags && GetU32(s.byteCode, 4) == SizeAll(code) && Loaded(s.byteCode, HEADER_LEN, code)
  {
    hide U16, U32, EncAll, AllEncodable, SizeAll, Loaded;
    s.Patch(2, [s.captureCount]);
    s.Patch(3, [stackSize]);
    s.Patch(4, U32(|s.byteCode| - HEADER_LEN));
    HeaderPatched(flags, s.captureCount, stackSize, EncAll(code), s.byteCode);
    HeaderRead(flags, s.captureCount, stackSize, code, s.byteCode);
  }

  lemma ProgramNarrow(canon: Canon, r: Regex, sticky: bool)
    requires RangesFit(r)
    ensures AllNarrow(ProgramCode(canon, r, sticky))
  {
    hide Code, AllNarrow;
    var x := Code(canon, r, 1);
    FixedEncodable();
    CodeNarrow(canon, r, 1);
    NarrowAppend(x, [SaveEnd(0), Match]);
    NarrowFirst(SaveStart(0), x + [SaveEnd(0), Match]);
    NarrowAppend(if sticky then [] else [Split(false, 6), Any, Goto(-11)], [SaveStart(0)] + (x + [SaveEnd(0), Match]));
  }

  lemma HeaderFirst(header: seq<Byte>, sticky: bool, x: seq<Byte>, all: seq<Byte>)
    requires all == (((if sticky then [] else ([12] + U32(6)) + [6] + ([11] + U32(-11))) + [15, 0]) + x) + [16, 0, 14]
    ensures sticky ==> ((header + [15, 0]) + x) + [16, 0, 14] == header + all
    ensures !sticky ==> (((((header + ([12] + U32(6))) + [6]) + ([11] + U32(-11))) + [15, 0]) + x) + [16, 0, 14] == header + all
  {
    hide U32;
  }

  lemma {:induction false} MaxDepthSmall(ins: seq<Instr>, d: int, max: int)
    requires max <= STACK_SIZE_MAX
    ensures MaxDepth(ins, d, max) <= STACK_SIZE_MAX
    decreases |ins|
  {
    hide Effect;
    if ins != [] {
      var e := d + Effect(ins[0]);
      if e <= STACK_SIZE_MAX {
        MaxDepthSmall(ins[1..], e, if e > max then e else max);
      }
    }
  }

  function Header(flags: nat, count: Byte, stack: Byte, len: int): seq<Byte>
  {
    U16(flags) + [count, stack] + U32(len)
  }

  lemma HeaderPatched(flags: nat, count: Byte, stack: Byte, body: seq<Byte>, b: seq<Byte>)
    requires var b0 := U16(flags) + [0, 0] + U32(0) + body;
             var b1 := b0[..2] + [count] + b0[3..];
             var b2 := b1[..3] + [stack] + b1[4..];
             b == b2[..4] + U32(|body|) + b2[8..]
    ensures b == Header(flags, count, stack, |body|) + body
  {
    hide U16, U32;
    FieldsPatched(U16(flags), count, stack, U32(0), U32(|body|), body);
  }

  lemma FieldsPatched(u: seq<Byte>, count: Byte, stack: Byte, z: seq<Byte>, n: seq<Byte>, body: seq<Byte>)
    requires |u| == 2 && |z| == 4
    ensures var b0 := u + [0, 0] + z + body;
            var b1 := b0[..2] + [count] + b0[3..];
            var b2 := b1[..3] + [stack] + b1[4..];
            b2[..4] + n + b2[8..] == u + [count, stack] + n + body
  {
    var b0 := u + [0, 0] + z + body;
    var b1 := b0[..2] + [count] + b0[3..];
    var b2 := b1[..3] + [stack] + b1[4..];
    assert b0[..2] == u;
    assert b1[..2] == u;
    assert b2[..4] == u + [count, stack];
    assert b2[8..] == b1[8..] == b0[8..] == body;
  }

  lemma HeaderRead(flags: nat, count: Byte, stack: Byte, code: seq<Instr>, b: seq<Byte>)
    requires flags < TWO16 && SizeAll(code) <= CODE_SIZE_MAX && AllEncodable(code)
    requires b == Header(flags, count, stack, SizeAll(code)) + EncAll(code)
    ensures |b| == HEADER_LEN + SizeAll(code) && b[2] == count && b[3] == stack
    ensures GetU16(b, 0) == flags && GetU32(b, 4) == SizeAll(code) && Loaded(b, HEADER_LEN, code)
  {
    hide U16, U32, EncAll, Loaded, SizeAll, AllEncodable;
    var n := SizeAll(code);
    assert b[0..2] == U16(flags);
    assert b[4..8] == U32(n);
    assert b[8..8 + n] == EncAll(code);
    ReadU16(b, 0, flags);
    ReadU32(b, 4, n);
    EncodableEach(code);
    LoadedFromBytes(b, HEADER_LEN, code);
  }

  // ---------- running ----------

  datatype Phase = Executing | Recursing(ret: bool) | Finished(ret: bool) | Aborted

  predicate ChoicesIn(s: Subject, ks: seq<Choice>) { forall i :: 0 <= i < |ks| ==> InBounds(s, ks[i].st) }
  predicate FramesIn(s: Subject, fs: seq<Frame>) { forall i :: 0 <= i < |fs| ==> fs[i].pos <= |s.units| }

  lemma ChoicesPush(s: Subject, ks: seq<Choice>, k: Choice)
    requires ChoicesIn(s, ks) && InBounds(s, k.st)
    ensures ChoicesIn(s, ks + [k])
  {
    hide InBounds;
  }

  lemma ChoicesPop(s: Subject, ks: seq<Choice>)
    requires ChoicesIn(s, ks) && ks != []
    ensures ChoicesIn(s, Front(ks)) && InBounds(s, Last(ks).st)
  {
    hide InBounds;
  }

  lemma FramesPop(s: Subject, fs: seq<Frame>)
    requires FramesIn(s, fs) && fs != []
    ensures FramesIn(s, Front(fs)) && Last(fs).pos <= |s.units|
  {
  }

  lemma FramesPush(s: Subject, fs: seq<Frame>, f: Frame)
    requires FramesIn(s, fs) && f.pos <= |s.units|
    ensures FramesIn(s, fs + [f])
  {
  }

  lemma NoFrames(s: Subject)
    ensures FramesIn(s, [])
  {
  }

  lemma CursorIn(s: Subject, st: State)
    requires InBounds(s, st)
    ensures st.pos <= |s.units|
  {
  }

  lemma MoveIn(s: Subject, st: State, p: nat)
    requires InBounds(s, st) && p <= |s.units|
    ensures InBounds(s, State(p, st.caps))
  {
  }

  /** lre_exec_backtrack with its local variables, the capture array and the state stack as fields. The nested
      calls made by simple_greedy_quant are the entries of `frames`. */
  class ExecContext {
    const m: Machine
    var phase: Phase
    var pc: int
    var cptr: nat
    var capture: seq<int>
    var stack: seq<int>
    var stateStack: seq<Choice>
    var frames: seq<Frame>

    /** The configuration these fields stand for. */
    ghost function Config(): Config
      reads this
    {
      match phase
      case Executing => Run(pc, State(cptr, capture), stack, stateStack, frames)
      case Recursing(ret) => Unwind(if ret then Some(capture) else None, stateStack)
      case Finished(ret) => Done(if ret then Some(capture) else None)
      case Aborted => Stuck
    }

    ghost predicate Valid()
      reads this
    {
      InBounds(m.s, State(cptr, capture)) && ChoicesIn(m.s, stateStack) && FramesIn(m.s, frames)
    }

    constructor (m: Machine, cptr: nat, captureCount: nat)
      requires cptr <= |m.s.units|
      ensures this.m == m && Valid() && Config() == Initial(cptr, captureCount)
    {
      this.m := m;
      phase := Executing;
      pc := HEADER_LEN;
      this.cptr := cptr;
      capture := seq(2 * captureCount, _ => -1);
      stack := [];
      stateStack := [];
      frames := [];
    }

    method PushState(kind: Kind, target: int)
      requires Valid() && phase.Executing?
      modifies this`stateStack
      ensures Valid()
      ensures stateStack == old(stateStack) + [Choice(kind, target, State(cptr, capture), stack)]
    {
      hide InBounds, ChoicesIn, FramesIn;
      ChoicesPush(m.s, stateStack, Choice(kind, target, State(cptr, capture), stack));
      stateStack := stateStack + [Choice(kind, target, State(cptr, capture), stack)];
    }

    /** goto no_match */
    method Fail()
      requires Valid() && phase.Executing?
      modifies this
      ensures Valid() && Config() == NoMatch(m, old(Config()))
      decreases |frames|, 1
    {
      hide InBounds, ChoicesIn, FramesIn, QuantDone;
      if frames == [] {
        phase := Recursing(false);
      } else {
        EndQuant();
      }
    }

    /** After the loop of simple_greedy_quant. */
    method EndQuant()
      requires Valid() && phase.Executing? && frames != []
      modifies this
      ensures Valid() && Config() == QuantDone(m, old(Config()))
      decreases |frames|, 0
    {
      hide Fetch, NoMatch, InBounds, ChoicesIn, FramesIn;
      var f := Last(frames);
      FramesPop(m.s, frames);
      MoveIn(m.s, State(cptr, capture), f.pos);
      frames := Front(frames);
      cptr := f.pos;
      stack := f.stack;
      match Fetch(m.code, f.pc)
      case SimpleGreedyQuant(off, min, max, len) =>
        if f.q < min {
          pc := 0;
          Fail();
        } else {
          if f.q > min {
            PushState(KGreedy(f.q - min), f.pc + 1);
          }
          pc := f.pc + 17 + off;
        }
      case _ => phase := Aborted;
    }

    /** One more round of the atom succeeded. */
    method NextRound()
      requires Valid() && phase.Executing? && frames != []
      modifies this
      ensures Valid() && Config() == RoundDone(m, old(Config()))
    {
      hide Fetch, QuantDone, InBounds, ChoicesIn, FramesIn;
      var f := Last(frames);
      var q := f.q + 1;
      FramesPop(m.s, frames);
      CursorIn(m.s, State(cptr, capture));
      FramesPush(m.s, Front(frames), f.(q := q, pos := cptr));
      frames := Front(frames) + [f.(q := q, pos := cptr)];
      match Fetch(m.code, f.pc)
      case SimpleGreedyQuant(off, min, max, len) =>
        if q >= max && max != INT32_MAX {
          EndQuant();
        } else {
          pc := f.pc + 17;
          stack := f.stack;
        }
      case _ => phase := Aborted;
    }

    /** Move on in the state an instruction left, or fail. */
    method Advance(next: int, xs: seq<State>)
      requires Valid() && phase.Executing? && |xs| <= 1
      requires xs != [] ==> InBounds(m.s, xs[0])
      modifies this
      ensures Valid() && Config() == Continue(m, old(Config()), next, xs)
    {
      hide NoMatch, InBounds, ChoicesIn, FramesIn;
      if xs == [] {
        Fail();
      } else {
        pc := next;
        cptr := xs[0].pos;
        capture := xs[0].caps;
      }
    }

    /** Forget the groups first..last. */
    method ResetCaptures(first: int, last: int)
      requires Valid() && phase.Executing? && 2 * last + 1 < |capture| && 0 <= first
      modifies this`capture
      ensures Valid() && capture == ResetCaps(State(cptr, old(capture)), first, last).caps
    {
      hide ChoicesIn, FramesIn;
      ghost var was := capture;
      var n := first;
      while n <= last
        invariant |capture| == |was| && first <= n
        invariant forall k :: 0 <= k < |was| ==> capture[k] == if 2 * first <= k < 2 * n then -1 else was[k]
        invariant n <= last + 1 || capture == was
      {
        capture := capture[2 * n := -1][2 * n + 1 := -1];
        n := n + 1;
      }
    }

    /** A group that is not set matches the empty string; the characters of one that is have to come next. */
    method MatchBackReference(i: Instr)
      requires Valid() && phase.Executing? && i.BackReference? && i.index >= 0
      modifies this
      ensures Valid() && Config() == Execute(m, old(Config()), i)
    {
      hide NoMatch, ChoicesIn, FramesIn, RepeatEnd, GetChar;
      var n, next := i.index, pc + Size(i);
      if 2 * n + 1 >= |capture| {
        Fail();
        return;
      }
      var from, to := capture[2 * n], capture[2 * n + 1];
      if from >= 0 && to >= 0 {
        var p, equal := cptr, true;
        while equal && from < to
          invariant 0 <= from && 0 <= to <= |m.s.units| && 0 <= p <= |m.s.units|
          invariant RepeatEnd(m.s, capture[2 * n], to, cptr, i.icase) == if equal then RepeatEnd(m.s, from, to, p, i.icase) else -1
          decreases equal, to - from
          modifies {}
        {
          RepeatStep(m.s, from, to, p, i.icase);
          if p >= |m.s.units| {
            equal := false;
          } else {
            var c1, c2 := GetChar(m.s, from, to), GetChar(m.s, p, |m.s.units|);
            equal := Fold(m.s, i.icase, c1.0) == Fold(m.s, i.icase, c2.0);
            from, p := c1.1, c2.1;
          }
        }
        if !equal {
          Fail();
          return;
        }
        RepeatStep(m.s, from, to, p, i.icase);
        cptr := p;
      }
      pc := next;
    }

    /** The instructions that only touch the captures. */
    method Save(i: Instr)
      requires Valid() && phase.Executing? && (i.SaveStart? || i.SaveEnd? || i.SaveReset?)
      modifies this
      ensures Valid() && Config() == Execute(m, old(Config()), i)
    {
      hide ChoicesIn, FramesIn;
      pc := pc + Size(i);
      match i
      case SaveStart(k) =>
        if 0 <= k && 2 * k + 1 < |capture| { capture := capture[2 * k := cptr]; } else { phase := Aborted; }
      case SaveEnd(k) =>
        if 0 <= k && 2 * k + 1 < |capture| { capture := capture[2 * k + 1 := cptr]; } else { phase := Aborted; }
      case SaveReset(a, b) =>
        if 0 <= a && 2 * b + 1 < |capture| {
          ResetCaptures(a, b);
        } else {
          phase := Aborted;
        }
    }

    /** The instructions that only touch the counter stack. */
    method Count(i: Instr)
      requires Valid() && phase.Executing?
      requires i.PushI32? || i.PushCharPos? || i.Drop? || i.Loop? || i.CheckAdvance?
      modifies this
      ensures Valid() && Config() == Execute(m, old(Config()), i)
    {
      hide NoMatch, InBounds, ChoicesIn, FramesIn;
      var next := pc + Size(i);
      if i.PushI32? {
        pc, stack := next, stack + [i.count];
      } else if i.PushCharPos? {
        pc, stack := next, stack + [cptr];
      } else if stack == [] {
        phase := Aborted;
      } else if i.Drop? {
        pc, stack := next, Front(stack);
      } else if i.Loop? {
        var v := (Last(stack) - 1) % TWO64;
        pc := if v != 0 then next + i.off else next;
        stack := Front(stack) + [v];
      } else {
        var p := Last(stack);
        pc, stack := next, Front(stack);
        if p == cptr {
          Fail();
        }
      }
    }

    /** The body of the interpreter loop. */
    method ExecuteOne()
      requires Valid() && phase.Executing?
      modifies this
      ensures Valid() && Config() == Step(m, old(Config()))
    {
      hide Fetch, NoMatch, RoundDone, Size, TakeChar, TakeBackref, InBounds, ChoicesIn, FramesIn;
      var i := Fetch(m.code, pc);
      var next := pc + Size(i);
      CursorIn(m.s, State(cptr, capture));
      if IsCharInstr(i) {
        Advance(next, TakeChar(m.s, State(cptr, capture), (x: CodePoint) => Consumes(m.s, i, x)));
      } else if IsTestInstr(i) {
        Advance(next, if Passes(m.s, i, cptr) then [State(cptr, capture)] else []);
      } else if i.BackReference? {
        if i.index < 0 {
          phase := Aborted;
        } else {
          MatchBackReference(i);
        }
      } else if i.SaveStart? || i.SaveEnd? || i.SaveReset? {
        Save(i);
      } else if i.PushI32? || i.PushCharPos? || i.Drop? || i.Loop? || i.CheckAdvance? {
        Count(i);
      } else {
        Control(i);
      }
    }

    /** Jumps, choice points, and the end of a run. */
    method Control(i: Instr)
      requires Valid() && phase.Executing?
      requires i.Goto? || i.Split? || i.Lookahead? || i.Match? || i.SimpleGreedyQuant? || i.Invalid?
      modifies this
      ensures Valid() && Config() == Execute(m, old(Config()), i)
    {
      hide RoundDone, InBounds, ChoicesIn, FramesIn;
      var next := pc + Size(i);
      match i
      case Goto(off) => pc := next + off;
      case Split(nextFirst, off) =>
        PushState(KSplit, if nextFirst then next + off else next);
        pc := if nextFirst then next else next + off;
      case Lookahead(negated, off) =>
        PushState(if negated then KNegLook else KLook, next + off);
        pc := next;
      case Match =>
        if frames == [] {
          phase := Recursing(true);
        } else {
          NextRound();
        }
      case SimpleGreedyQuant(_, _, _, _) =>
        if pc < 0 {
          phase := Aborted;
        } else {
          CursorIn(m.s, State(cptr, capture));
          FramesPush(m.s, frames, Frame(pc, 0, cptr, stack));
          frames := frames + [Frame(pc, 0, cptr, stack)];
          pc := next;
        }
      case Invalid => phase := Aborted;
    }

    /** Resume at a saved state, with its captures unless a positive lookahead keeps the new ones. */
    method PopState(t: Choice, keepCapture: bool)
      requires Valid() && InBounds(m.s, t.st) && stateStack != []
      modifies this
      ensures Valid() && stateStack == Front(old(stateStack))
      ensures Config() == Run(t.pc, if keepCapture then State(t.st.pos, old(capture)) else t.st, t.stack, stateStack, [])
    {
      hide InBounds, ChoicesIn, FramesIn;
      ChoicesPop(m.s, stateStack);
      CursorIn(m.s, t.st);
      MoveIn(m.s, State(cptr, capture), t.st.pos);
      NoFrames(m.s);
      if !keepCapture {
        capture := t.st.caps;
      }
      pc, cptr, stack := t.pc, t.st.pos, t.stack;
      stateStack := Front(stateStack);
      frames := [];
      phase := Executing;
    }

    /** One turn of the `recurse` loop. */
    method RecurseOne()
      requires Valid() && phase.Recursing?
      modifies this
      ensures Valid() && Config() == Step(m, old(Config()))
    {
      hide PopGreedy, InBounds, ChoicesIn, FramesIn;
      var ret := phase.ret;
      if stateStack == [] {
        phase := Finished(ret);
        return;
      }
      var t := Last(stateStack);
      ChoicesPop(m.s, stateStack);
      match t.kind
      case KSplit => if !ret { PopState(t, false); } else { stateStack := Front(stateStack); }
      case KLook => if ret { PopState(t, true); } else { stateStack := Front(stateStack); }
      case KNegLook =>
        if !ret {
          PopState(t, false);
        } else {
          stateStack := Front(stateStack);
          phase := Recursing(false);
        }
      case KGreedy(n) => if !ret { StepBackQuant(t, n); } else { stateStack := Front(stateStack); }
    }

    /** Give up one round of a simple_greedy_quant. */
    method StepBackQuant(t: Choice, n: nat)
      requires Valid() && phase == Recursing(false) && stateStack != [] && t == Last(stateStack) && t.kind == KGreedy(n)
      modifies this
      ensures Valid() && Config() == PopGreedy(m, t, n, Front(old(stateStack)))
    {
      hide Fetch, InBounds, ChoicesIn, FramesIn, BackUp;
      var rest := Front(stateStack);
      ChoicesPop(m.s, stateStack);
      CursorIn(m.s, t.st);
      NoFrames(m.s);
      match Fetch(m.code, t.pc - 1)
      case SimpleGreedyQuant(off, min, max, len) =>
        if len < 0 || n == 0 {
          phase := Aborted;
          return;
        }
        var p := BackUp(m.s, t.st.pos, len);
        if p < 0 {
          phase := Aborted;
          return;
        }
        var st := t.st.(pos := p);
        MoveIn(m.s, t.st, p);
        ChoicesPush(m.s, rest, t.(kind := KGreedy(if n == 1 then 1 else n - 1), st := st));
        stateStack := if n == 1 then rest else rest + [t.(kind := KGreedy(n - 1), st := st)];
        pc, cptr, capture, stack := t.pc + 16 + off, p, t.st.caps, t.stack;
        frames := [];
        phase := Executing;
      case _ => phase := Aborted;
    }

    /** The whole loop; `n` steps are known to lead to an answer. */
    method Backtrack(ghost n: nat)
      requires Valid() && Steps(m, Config(), n).Done?
      modifies this
      ensures phase.Finished? && Config() == Steps(m, old(Config()), n)
    {
      hide Step;
      ghost var left := n;
      while !phase.Finished?
        invariant Valid() && Steps(m, Config(), left) == Steps(m, old(Config()), n)
        decreases left
      {
        if phase.Aborted? {
          StuckStays(m, left);
          assert false;
        }
        NotYet(m, Config(), left);
        if phase.Executing? {
          ExecuteOne();
        } else {
          RecurseOne();
        }
        left := left - 1;
      }
      DoneStays(m, Config().won, left);
    }
  }

  lemma {:induction false} StuckStays(m: Machine, n: nat)
    ensures Steps(m, Stuck, n) == Stuck
    decreases n
  {
    if n > 0 {
      StuckStays(m, n - 1);
    }
  }

  lemma {:induction false} DoneStays(m: Machine, won: Option<seq<int>>, n: nat)
    ensures Steps(m, Done(won), n) == Done(won)
    decreases n
  {
    if n > 0 {
      DoneStays(m, won, n - 1);
    }
  }

  lemma NotYet(m: Machine, c: Config, n: nat)
    requires Steps(m, c, n).Done? && !c.Done?
    ensures n > 0 && Steps(m, c, n) == Steps(m, Step(m, c), n - 1)
  {
    hide Step;
  }

  /** lre_exec: on the result of lre_compile it halts with the captures of the preferred leftmost match. */
  method LreExec(code: seq<Byte>, s: Subject, index: nat, ghost flags: nat, ghost r: Regex) returns (won: Option<seq<int>>)
    requires Compiled(code, flags, s.canon, r) && index <= |s.units|
    ensures exists p :: StartsAt(s, index, p) &&
              won == if Sticky(flags) then HereOnly(s, r, 1 + Groups(r), p) else Leftmost(s, r, 1 + Groups(r), p)
  {
    hide Leftmost, HereOnly, Loaded, ProgramCode, Step, Steps, Fetch;
    var cptr := index;
    if 0 < index < |s.units| && s.enc.Utf16? {
      if IsLo(s.units[index]) && IsHi(s.units[index - 1]) {
        cptr := index - 1;
      }
    }
    StartMeaning(s, index, cptr);
    var captureCount := code[2];
    var m := Machine(code, s);
    CompiledRuns(m, r, Sticky(flags), captureCount, index, cptr);
    var c := new ExecContext(m, cptr, captureCount);
    ghost var answer := Done(if Sticky(flags) then HereOnly(s, r, captureCount, cptr) else Leftmost(s, r, captureCount, cptr));
    ghost var n: nat :| Steps(m, Initial(cptr, captureCount), n) == answer;
    c.Backtrack(n);
    won := if c.phase.ret then Some(c.capture) else None;
  }
}
