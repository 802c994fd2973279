// Compilation preserves meaning: the code of a pattern delivers, in order, the states that the
// pattern can match -- wherever the code lies and whatever the matcher has on its stacks.
module CodeCorrect {
  import opened Bytecode
  import opened Subjects
  import opened Regex
  import opened Matcher
  import opened Simulation
  import opened StepFacts
  import opened CodeGen
  import opened LeafCode
  import opened Equations
  import opened Loops
  import opened SimpleQuant
  import opened StraightLine

  function CodeSize(m: Machine, r: Regex, cc: nat): nat
  {
    SizeAll(Code(m.s.canon, r, cc))
  }

  /** The code of `r` at `pc`, entered in state `st`, delivers the matches of `r`. */
  lemma {:induction false} CodeDoes(m: Machine, r: Regex, cc: nat, pc: nat, st: State, s1: seq<int>)
    requires Ready(m, r, cc, st) && Loaded(m.code, pc, Code(m.s.canon, r, cc))
    ensures Does(m, pc, st, s1, pc + CodeSize(m, r, cc), s1, Matches(m.s, r, cc, st))
    decreases r, 1
  {
    hide Does, Loaded;
    match r
    case Empty => DoesNothing(m, pc, st, s1);
    case Literal(_, _) => CharDoes(m, r, cc, pc, st, s1);
    case AnyChar(_) => CharDoes(m, r, cc, pc, st, s1);
    case Class(_, _) => CharDoes(m, r, cc, pc, st, s1);
    case Begin(_) => TestDoes(m, r, cc, pc, st, s1);
    case End(_) => TestDoes(m, r, cc, pc, st, s1);
    case Boundary(_, _) => TestDoes(m, r, cc, pc, st, s1);
    case Backref(_, _) => BackrefDoes(m, r, cc, pc, st, s1);
    case Concat(_, _) => ConcatDoes(m, r, cc, pc, st, s1);
    case Alternate(_, _) => AlternateDoes(m, r, cc, pc, st, s1);
    case Group(_) => GroupDoes(m, r, cc, pc, st, s1);
    case Look(_, _) => LookDoes(m, r, cc, pc, st, s1);
    case Repeat(_, _, _) => RepeatDoes(m, r, cc, pc, st, s1);
  }

  lemma LoadedOne(m: Machine, code: seq<Instr>, pc: nat)
    requires |code| == 1 && Loaded(m.code, pc, code)
    ensures Fetch(m.code, pc) == code[0] && SizeAll(code) == Size(code[0])
  {
    hide Fetch;
    assert code[1..] == [];
  }

  lemma CharDoes(m: Machine, r: Regex, cc: nat, pc: nat, st: State, s1: seq<int>)
    requires IsChar(r) && Ready(m, r, cc, st) && Loaded(m.code, pc, Code(m.s.canon, r, cc))
    ensures Does(m, pc, st, s1, pc + CodeSize(m, r, cc), s1, Matches(m.s, r, cc, st))
  {
    hide Does, Fetch, Code, SizeAll, Accepts, Consumes;
    var code := Code(m.s.canon, r, cc);
    CharAccepts(m.s, r, cc, 0);
    LoadedOne(m, code, pc);
    DoesCharInstr(m, pc, st, s1, code[0]);
    if st.pos < |m.s.units| {
      CharAccepts(m.s, r, cc, GetChar(m.s, st.pos, |m.s.units|).0);
    }
  }

  lemma TestDoes(m: Machine, r: Regex, cc: nat, pc: nat, st: State, s1: seq<int>)
    requires IsAssertion(r) && Ready(m, r, cc, st) && Loaded(m.code, pc, Code(m.s.canon, r, cc))
    ensures Does(m, pc, st, s1, pc + CodeSize(m, r, cc), s1, Matches(m.s, r, cc, st))
  {
    hide Does, Fetch;
    var code := Code(m.s.canon, r, cc);
    LoadedOne(m, code, pc);
    DoesTestInstr(m, pc, st, s1, code[0]);
  }

  lemma BackrefDoes(m: Machine, r: Regex, cc: nat, pc: nat, st: State, s1: seq<int>)
    requires r.Backref? && Ready(m, r, cc, st) && Loaded(m.code, pc, Code(m.s.canon, r, cc))
    ensures Does(m, pc, st, s1, pc + CodeSize(m, r, cc), s1, Matches(m.s, r, cc, st))
  {
    hide Does, Fetch;
    LoadedOne(m, Code(m.s.canon, r, cc), pc);
    DoesBackref(m, pc, st, s1, r.index, r.icase);
  }

  lemma {:induction false} ConcatDoes(m: Machine, r: Regex, cc: nat, pc: nat, st: State, s1: seq<int>)
    requires r.Concat? && Ready(m, r, cc, st) && Loaded(m.code, pc, Code(m.s.canon, r, cc))
    ensures Does(m, pc, st, s1, pc + CodeSize(m, r, cc), s1, Matches(m.s, r, cc, st))
    decreases r, 0
  {
    hide Code, Does, Matches, Loaded, SizeAll;
    var a, b, cb := r.first, r.second, cc + Groups(r.first);
    var x, y := Code(m.s.canon, a, cc), Code(m.s.canon, b, cb);
    CodeConcat(m.s.canon, r, cc);
    LoadedSplit(m.code, pc, x, y);
    SizeAllAppend(x, y);
    MatchesConcat(m.s, r, cc, st);
    CodeDoes(m, a, cc, pc, st, s1);
    var xs := Matches(m.s, a, cc, st);
    var mid, exit := pc + SizeAll(x), pc + SizeAll(x) + SizeAll(y);
    forall i | 0 <= i < |xs| ensures Does(m, mid, xs[i], s1, exit, s1, Matches(m.s, b, cb, xs[i])) {
      CodeDoes(m, b, cb, mid, xs[i], s1);
    }
    DoesBind(m, pc, st, s1, mid, s1, exit, s1, xs, MatchesEach(m.s, b, cb, st, xs));
  }

  lemma {:induction false} AlternateDoes(m: Machine, r: Regex, cc: nat, pc: nat, st: State, s1: seq<int>)
    requires r.Alternate? && Ready(m, r, cc, st) && Loaded(m.code, pc, Code(m.s.canon, r, cc))
    ensures Does(m, pc, st, s1, pc + CodeSize(m, r, cc), s1, Matches(m.s, r, cc, st))
    decreases r, 0
  {
    hide Code, Does, Matches, Loaded, Fetch, SizeAll, AlternateCode, Forks, Moves;
    var a, b, cb := r.first, r.second, cc + Groups(r.first);
    var x, y := Code(m.s.canon, a, cc), Code(m.s.canon, b, cb);
    var xs, ys := Matches(m.s, a, cc, st), Matches(m.s, b, cb, st);
    CodeAlternate(m.s.canon, r, cc);
    MatchesAlternate(m.s, r, cc, st);
    AlternateLayout(m, x, y, pc);
    var second, exit := pc + SizeAll(x) + 10, pc + SizeAll(x) + SizeAll(y) + 10;
    CodeDoes(m, a, cc, pc + 5, st, s1);
    forall i | 0 <= i < |xs| ensures Moves(m, second - 5, xs[i], s1, exit, xs[i], s1) {
      AtGoto(m, second - 5, xs[i], s1, SizeAll(y));
    }
    DoesMap(m, pc + 5, st, s1, second - 5, s1, exit, s1, xs, xs);
    CodeDoes(m, b, cb, second, st, s1);
    AtSplitInstr(m, pc, st, s1, true, SizeAll(x) + 5);
    DoesFork(m, pc, st, s1, pc + 5, second, exit, s1, xs, ys);
  }

  lemma AlternateLayout(m: Machine, x: seq<Instr>, y: seq<Instr>, pc: nat)
    requires Loaded(m.code, pc, AlternateCode(x, y))
    ensures Fetch(m.code, pc) == Split(true, SizeAll(x) + 5) && Loaded(m.code, pc + 5, x)
    ensures Fetch(m.code, pc + 5 + SizeAll(x)) == Goto(SizeAll(y)) && Loaded(m.code, pc + 10 + SizeAll(x), y)
    ensures SizeAll(AlternateCode(x, y)) == SizeAll(x) + SizeAll(y) + 10
  {
    hide Loaded, SizeAll, Fetch;
    var i, j := Split(true, SizeAll(x) + 5), Goto(SizeAll(y));
    LoadedFirst(m.code, pc, i, x + ([j] + y));
    LoadedSplit(m.code, pc + 5, x, [j] + y);
    LoadedFirst(m.code, pc + 5 + SizeAll(x), j, y);
    SizeFirst(i, x + ([j] + y));
    SizeAllAppend(x, [j] + y);
    SizeFirst(j, y);
  }

  lemma {:induction false} GroupDoes(m: Machine, r: Regex, cc: nat, pc: nat, st: State, s1: seq<int>)
    requires r.Group? && Ready(m, r, cc, st) && Loaded(m.code, pc, Code(m.s.canon, r, cc))
    ensures Does(m, pc, st, s1, pc + CodeSize(m, r, cc), s1, Matches(m.s, r, cc, st))
    decreases r, 0
  {
    hide Code, Does, Matches, Loaded, Fetch, SetCap, SizeAll, Moves;
    var a, st' := r.body, SetCap(st, 2 * cc, st.pos);
    var x := Code(m.s.canon, a, cc + 1);
    SetCapFollows(m.s, st, 2 * cc);
    var xs, ys := Matches(m.s, a, cc + 1, st'), Matches(m.s, r, cc, st);
    CodeGroup(m.s.canon, r, cc);
    MatchesGroup(m.s, r, cc, st);
    BracketLayout(m, SaveStart(cc), x, SaveEnd(cc), pc);
    CodeDoes(m, a, cc + 1, pc + 2, st', s1);
    var end := pc + 2 + SizeAll(x);
    forall i | 0 <= i < |xs| ensures Moves(m, end, xs[i], s1, end + 2, ys[i], s1) {
      AtSave(m, end, xs[i], s1, cc, true);
    }
    DoesMap(m, pc + 2, st', s1, end, s1, end + 2, s1, xs, ys);
    AtSave(m, pc, st, s1, cc, false);
    DoesAfter(m, pc, st, s1, pc + 2, st', s1, end + 2, s1, ys);
  }

  lemma BracketLayout(m: Machine, i: Instr, x: seq<Instr>, j: Instr, pc: nat)
    requires Loaded(m.code, pc, [i] + (x + [j]))
    ensures Fetch(m.code, pc) == i && Loaded(m.code, pc + Size(i), x)
    ensures Fetch(m.code, pc + Size(i) + SizeAll(x)) == j
    ensures SizeAll([i] + (x + [j])) == Size(i) + SizeAll(x) + Size(j)
  {
    hide Fetch;
    LoadedFirst(m.code, pc, i, x + [j]);
    LoadedSplit(m.code, pc + Size(i), x, [j]);
    SizeFirst(i, x + [j]);
    SizeAllAppend(x, [j]);
  }

  lemma {:induction false} LookDoes(m: Machine, r: Regex, cc: nat, pc: nat, st: State, s1: seq<int>)
    requires r.Look? && Ready(m, r, cc, st) && Loaded(m.code, pc, Code(m.s.canon, r, cc))
    ensures Does(m, pc, st, s1, pc + CodeSize(m, r, cc), s1, Matches(m.s, r, cc, st))
    decreases r, 0
  {
    hide Code, Does, Matches, Loaded, Fetch, SizeAll, Looks;
    var x := Code(m.s.canon, r.body, cc);
    var xs := Matches(m.s, r.body, cc, st);
    CodeLook(m.s.canon, r, cc);
    MatchesLook(m.s, r, cc, st);
    BracketLayout(m, Lookahead(r.negated, SizeAll(x) + 1), x, Match, pc);
    CodeDoes(m, r.body, cc, pc + 5, st, s1);
    AtLookahead(m, pc, st, s1, r.negated, SizeAll(x) + 1);
    DoesLook(m, pc, st, s1, pc + 5, r.negated, pc + 6 + SizeAll(x), pc + 5 + SizeAll(x), xs);
  }

  lemma {:induction false} AtomImplements(m: Machine, a: Regex, cc: nat, pc: nat)
    requires Loaded(m.code, pc, Code(m.s.canon, a, cc))
    ensures Implements(m, a, cc, Code(m.s.canon, a, cc), pc)
    decreases a, 2
  {
    hide Code, Does, Matches, Loaded, Ready;
    var x := Code(m.s.canon, a, cc);
    forall st, s1 ensures Delivers(m, a, cc, x, pc, st, s1) {
      if Ready(m, a, cc, st) {
        CodeDoes(m, a, cc, pc, st, s1);
      }
    }
  }

  lemma {:induction false} RepeatDoes(m: Machine, r: Regex, cc: nat, pc: nat, st: State, s1: seq<int>)
    requires r.Repeat? && Ready(m, r, cc, st) && Loaded(m.code, pc, Code(m.s.canon, r, cc))
    ensures Does(m, pc, st, s1, pc + CodeSize(m, r, cc), s1, Matches(m.s, r, cc, st))
    decreases r, 0
  {
    hide Code, Does, Matches, Loaded, RepeatCode, SizeAll;
    var x, min, max := Code(m.s.canon, r.body, cc), r.times.min, r.times.max;
    CodeRepeat(m.s.canon, r, cc);
    if UsesSimpleQuant(x, max, r.greedy) {
      QuantLayout(m, r, cc, pc);
      SimpleQuantDoes(m, r, cc, pc, st, s1);
    } else if min == 0 {
      SkippableDoes(m, r, cc, pc, st, s1);
    } else if min == 1 && max == INT32_MAX && !NeedCheckAdvance(x) {
      PlusRepeatDoes(m, r, cc, pc, st, s1);
    } else {
      RequiredDoes(m, r, cc, pc, st, s1);
    }
  }

  lemma {:induction false} PlusRepeatDoes(m: Machine, r: Regex, cc: nat, pc: nat, st: State, s1: seq<int>)
    requires r.Repeat? && Ready(m, r, cc, st) && r.times.min == 1 && r.times.max == INT32_MAX
    requires var x := Code(m.s.canon, r.body, cc);
             !UsesSimpleQuant(x, r.times.max, r.greedy) && !NeedCheckAdvance(x) &&
             Loaded(m.code, pc, RepeatCode(x, cc, Groups(r.body), 1, r.times.max, r.greedy))
    ensures Does(m, pc, st, s1, pc + SizeAll(RepeatCode(Code(m.s.canon, r.body, cc), cc, Groups(r.body), 1, r.times.max, r.greedy)),
                 s1, Matches(m.s, r, cc, st))
    decreases r.body, 4
  {
    hide Code, Does, Matches, Loaded, RepeatCode, SizeAll;
    PlusLayout(m, r, cc, pc);
    AtomImplements(m, r.body, cc, pc);
    PlusDoes(m, r.body, cc, r.greedy, pc, st, s1);
    PlusMatches(m.s, r, cc, st);
  }

  lemma QuantLayout(m: Machine, r: Regex, cc: nat, pc: nat)
    requires r.Repeat?
    requires var x := Code(m.s.canon, r.body, cc);
             UsesSimpleQuant(x, r.times.max, r.greedy) &&
             Loaded(m.code, pc, RepeatCode(x, cc, Groups(r.body), r.times.min, r.times.max, r.greedy))
    ensures QuantAt(m, pc, r.body, cc, r.times.min, r.times.max)
    ensures var x := Code(m.s.canon, r.body, cc);
            SizeAll(RepeatCode(x, cc, Groups(r.body), r.times.min, r.times.max, r.greedy)) == SizeAll(x) + 18
  {
    hide Code, Loaded, SizeAll, Fetch, SimpleLength;
    var x := Code(m.s.canon, r.body, cc);
    BracketLayout(m, SimpleGreedyQuant(SizeAll(x) + 1, r.times.min, r.times.max, SimpleLength(x)), x, Match, pc);
  }

  lemma PlusLayout(m: Machine, r: Regex, cc: nat, pc: nat)
    requires r.Repeat? && r.times.min == 1 && r.times.max == INT32_MAX
    requires var x := Code(m.s.canon, r.body, cc);
             !UsesSimpleQuant(x, r.times.max, r.greedy) && !NeedCheckAdvance(x) &&
             Loaded(m.code, pc, RepeatCode(x, cc, Groups(r.body), r.times.min, r.times.max, r.greedy))
    ensures var x := Code(m.s.canon, r.body, cc);
            Loaded(m.code, pc, x) && Fetch(m.code, pc + SizeAll(x)) == Split(!r.greedy, -((SizeAll(x) as int) + 5)) &&
            SizeAll(RepeatCode(x, cc, Groups(r.body), r.times.min, r.times.max, r.greedy)) == SizeAll(x) + 5
  {
    hide Code, Loaded, SizeAll, Fetch, SimpleLength, Scan;
    var x := Code(m.s.canon, r.body, cc);
    LastOne(m.code, pc, x, Split(!r.greedy, -((SizeAll(x) as int) + 5)));
  }

  lemma PlusMatches(s: Subject, r: Regex, cc: nat, st: State)
    requires r.Repeat? && r.times.min == 1 && r.times.max == INT32_MAX && Good(s, st)
    ensures Matches(s, r, cc, st) ==
            Join(UpToEach(s, r.body, cc, Unlimited, r.greedy, st, Matches(s, r.body, cc, st)))
  {
    hide Matches, Exactly, UpToEach, Join;
    MatchesRepeat(s, r, cc, st);
    ExactlyOnce(s, r.body, cc, st);
  }

  // ---------- quantifiers whose atom may be skipped ----------

  function SkippableTail(x: seq<Instr>, max: nat, greedy: bool): seq<Instr>
  {
    var check := NeedCheckAdvance(x);
    if max == 1 then [Split(greedy, RoundSize(x, check))] + Round(x, check)
    else LoopCode(x, check, Extra(0, max), greedy)
  }

  lemma {:induction false} SkippableTailDoes(m: Machine, r: Regex, cc: nat, pc: nat, st: State, s1: seq<int>)
    requires r.Repeat? && Ready(m, r, cc, st)
    requires Loaded(m.code, pc, SkippableTail(Code(m.s.canon, r.body, cc), r.times.max, r.greedy))
    ensures Does(m, pc, st, s1, pc + SizeAll(SkippableTail(Code(m.s.canon, r.body, cc), r.times.max, r.greedy)), s1,
                 UpTo(m.s, r.body, cc, Extra(0, r.times.max), r.greedy, st))
    decreases r.body, 3
  {
    hide Code, Does, Matches, Loaded, SizeAll, Fetch, Scan, LoopCode, Round, Implements;
    var x, max := Code(m.s.canon, r.body, cc), r.times.max;
    var check := NeedCheckAdvance(x);
    if max == 1 {
      LoadedFirst(m.code, pc, Split(r.greedy, RoundSize(x, check)), Round(x, check));
      RoundLayout(m.code, pc + 5, x, check);
      SizeFirst(Split(r.greedy, RoundSize(x, check)), Round(x, check));
      AtomImplements(m, r.body, cc, pc + 5 + Flag(check));
      OptionalDoes(m, r.body, cc, check, r.greedy, pc, st, s1);
    } else {
      var left := Extra(0, max);
      if left != Times(0) {
        LoopAtom(m.code, pc, x, check, left, r.greedy);
        AtomImplements(m, r.body, cc, pc + AtomOffset(check, left));
      }
      LoopCodeDoes(m, r.body, cc, check, left, r.greedy, pc, st, s1);
    }
  }

  lemma SkippableMatches(s: Subject, r: Regex, cc: nat, st: State)
    requires r.Repeat? && r.times.min == 0 && Good(s, st)
    ensures Good(s, EnterRepeat(r, cc, st))
    ensures Matches(s, r, cc, st) == UpTo(s, r.body, cc, Extra(0, r.times.max), r.greedy, EnterRepeat(r, cc, st))
  {
    hide Matches, Exactly, UpTo, Join, EnterRepeat;
    var st0 := EnterRepeat(r, cc, st);
    EnterFollows(s, r, cc, st);
    MatchesRepeat(s, r, cc, st);
    ExactlyNone(s, r.body, cc, st0);
    var xss := UpToEach(s, r.body, cc, Extra(0, r.times.max), r.greedy, st, [st0]);
    assert xss == [xss[0]];
    JoinOne(xss[0]);
  }

  lemma SkippableLayout(m: Machine, r: Regex, cc: nat, pc: nat)
    requires r.Repeat? && r.times.min == 0
    requires var x := Code(m.s.canon, r.body, cc);
             !UsesSimpleQuant(x, r.times.max, r.greedy) &&
             Loaded(m.code, pc, RepeatCode(x, cc, Groups(r.body), 0, r.times.max, r.greedy))
    ensures var x, g := Code(m.s.canon, r.body, cc), Groups(r.body);
            var tail, n := SkippableTail(x, r.times.max, r.greedy), if g > 0 then 3 else 0;
            (g > 0 ==> Fetch(m.code, pc) == SaveReset(cc, cc + g - 1)) && Loaded(m.code, pc + n, tail) &&
            SizeAll(RepeatCode(x, cc, g, 0, r.times.max, r.greedy)) == n + SizeAll(tail)
  {
    hide Code, Loaded, SizeAll, Fetch, SimpleLength, Scan, LoopCode, Round, Groups;
    var x, g := Code(m.s.canon, r.body, cc), Groups(r.body);
    var tail := SkippableTail(x, r.times.max, r.greedy);
    assert RepeatCode(x, cc, g, 0, r.times.max, r.greedy) == ResetCode(cc, g) + tail;
    if g > 0 {
      LoadedFirst(m.code, pc, SaveReset(cc, cc + g - 1), tail);
      SizeFirst(SaveReset(cc, cc + g - 1), tail);
    } else {
      assert [] + tail == tail;
    }
  }

  lemma {:induction false} SkippableDoes(m: Machine, r: Regex, cc: nat, pc: nat, st: State, s1: seq<int>)
    requires r.Repeat? && r.times.min == 0 && Ready(m, r, cc, st)
    requires var x := Code(m.s.canon, r.body, cc);
             !UsesSimpleQuant(x, r.times.max, r.greedy) &&
             Loaded(m.code, pc, RepeatCode(x, cc, Groups(r.body), 0, r.times.max, r.greedy))
    ensures Does(m, pc, st, s1, pc + SizeAll(RepeatCode(Code(m.s.canon, r.body, cc), cc, Groups(r.body), 0, r.times.max, r.greedy)),
                 s1, Matches(m.s, r, cc, st))
    decreases r.body, 4
  {
    hide Code, Does, Matches, Loaded, SizeAll, Fetch, Scan, UpTo, SimpleLength, RepeatCode, SkippableTail, Moves;
    var g, st0 := Groups(r.body), EnterRepeat(r, cc, st);
    SkippableLayout(m, r, cc, pc);
    SkippableMatches(m.s, r, cc, st);
    EnterFollows(m.s, r, cc, st);
    if g > 0 {
      SkippableTailDoes(m, r, cc, pc + 3, st0, s1);
      AtReset(m, pc, st, s1, cc, cc + g - 1);
      var exit := pc + 3 + SizeAll(SkippableTail(Code(m.s.canon, r.body, cc), r.times.max, r.greedy));
      DoesAfter(m, pc, st, s1, pc + 3, st0, s1, exit, s1, Matches(m.s, r, cc, st));
    } else {
      SkippableTailDoes(m, r, cc, pc, st, s1);
    }
  }

  // ---------- quantifiers with mandatory rounds ----------

  function RequiredHead(x: seq<Instr>, min: nat): seq<Instr>
  {
    if min == 1 then x else [PushI32(min)] + (x + [Loop(-((SizeAll(x) as int) + 5)), Drop])
  }

  lemma HeadLayout(m: Machine, x: seq<Instr>, min: nat, pc: nat)
    requires Loaded(m.code, pc, RequiredHead(x, min)) && min > 1
    ensures Fetch(m.code, pc) == PushI32(min) && Loaded(m.code, pc + 5, x)
    ensures Fetch(m.code, pc + 5 + SizeAll(x)) == Loop(-((SizeAll(x) as int) + 5)) && Fetch(m.code, pc + 10 + SizeAll(x)) == Drop
    ensures SizeAll(RequiredHead(x, min)) == SizeAll(x) + 11
  {
    hide Loaded, SizeAll, Fetch;
    var back := Loop(-((SizeAll(x) as int) + 5));
    LoadedFirst(m.code, pc, PushI32(min), x + [back, Drop]);
    LastTwo(m.code, pc + 5, x, back, Drop);
    SizeFirst(PushI32(min), x + [back, Drop]);
  }

  lemma {:induction false} HeadDoes(m: Machine, a: Regex, cc: nat, min: nat, pc: nat, st: State, s1: seq<int>)
    requires Ready(m, a, cc, st) && 1 <= min <= INT32_MAX
    requires Loaded(m.code, pc, RequiredHead(Code(m.s.canon, a, cc), min))
    ensures Does(m, pc, st, s1, pc + SizeAll(RequiredHead(Code(m.s.canon, a, cc), min)), s1, Exactly(m.s, a, cc, min, st))
    decreases a, 3
  {
    hide Code, Does, Matches, Loaded, SizeAll, Fetch, Exactly, Implements, Moves;
    var x := Code(m.s.canon, a, cc);
    if min == 1 {
      ExactlyOnce(m.s, a, cc, st);
      CodeDoes(m, a, cc, pc, st, s1);
    } else {
      HeadLayout(m, x, min, pc);
      AtomImplements(m, a, cc, pc + 5);
      ExactlyDoes(m, a, cc, min, pc + 5, st, s1);
      AtPushI32(m, pc, st, s1, min);
      DoesAfter(m, pc, st, s1, pc + 5, st, s1 + [min], pc + SizeAll(x) + 11, s1, Exactly(m.s, a, cc, min, st));
    }
  }

  lemma RequiredLayout(m: Machine, r: Regex, cc: nat, pc: nat)
    requires r.Repeat? && r.times.min > 0
    requires var x := Code(m.s.canon, r.body, cc);
             !UsesSimpleQuant(x, r.times.max, r.greedy) &&
             !(r.times.min == 1 && r.times.max == INT32_MAX && !NeedCheckAdvance(x)) &&
             Loaded(m.code, pc, RepeatCode(x, cc, Groups(r.body), r.times.min, r.times.max, r.greedy))
    ensures var x := Code(m.s.canon, r.body, cc);
            var head, tail := RequiredHead(x, r.times.min),
                              LoopCode(x, NeedCheckAdvance(x), Extra(r.times.min, r.times.max), r.greedy);
            Loaded(m.code, pc, head) && Loaded(m.code, pc + SizeAll(head), tail) &&
            SizeAll(RepeatCode(x, cc, Groups(r.body), r.times.min, r.times.max, r.greedy)) == SizeAll(head) + SizeAll(tail)
  {
    hide Code, Loaded, SizeAll, Fetch, SimpleLength, Scan, LoopCode, Groups;
    var x := Code(m.s.canon, r.body, cc);
    var head, tail := RequiredHead(x, r.times.min), LoopCode(x, NeedCheckAdvance(x), Extra(r.times.min, r.times.max), r.greedy);
    assert RepeatCode(x, cc, Groups(r.body), r.times.min, r.times.max, r.greedy) == head + tail;
    LoadedSplit(m.code, pc, head, tail);
    SizeAllAppend(head, tail);
  }

  lemma {:induction false} RequiredDoes(m: Machine, r: Regex, cc: nat, pc: nat, st: State, s1: seq<int>)
    requires r.Repeat? && r.times.min > 0 && Ready(m, r, cc, st)
    requires var x := Code(m.s.canon, r.body, cc);
             !UsesSimpleQuant(x, r.times.max, r.greedy) &&
             !(r.times.min == 1 && r.times.max == INT32_MAX && !NeedCheckAdvance(x)) &&
             Loaded(m.code, pc, RepeatCode(x, cc, Groups(r.body), r.times.min, r.times.max, r.greedy))
    ensures Does(m, pc, st, s1,
                 pc + SizeAll(RepeatCode(Code(m.s.canon, r.body, cc), cc, Groups(r.body), r.times.min, r.times.max, r.greedy)),
                 s1, Matches(m.s, r, cc, st))
    decreases r.body, 4
  {
    hide Code, Does, Matches, Loaded, SizeAll, Fetch, Scan, UpTo, SimpleLength, RepeatCode, RequiredHead, LoopCode,
         Exactly, Implements, Join;
    var a, min, left := r.body, r.times.min, Extra(r.times.min, r.times.max);
    var x := Code(m.s.canon, a, cc);
    var check := NeedCheckAdvance(x);
    RequiredLayout(m, r, cc, pc);
    HeadDoes(m, a, cc, min, pc, st, s1);
    var xs := Exactly(m.s, a, cc, min, st);
    var mid := pc + SizeAll(RequiredHead(x, min));
    var exit := mid + SizeAll(LoopCode(x, check, left, r.greedy));
    if left != Times(0) {
      LoopAtom(m.code, mid, x, check, left, r.greedy);
      AtomImplements(m, a, cc, mid + AtomOffset(check, left));
    }
    ReadyNext(m, a, cc, st, xs);
    var xss := UpToEach(m.s, a, cc, left, r.greedy, st, xs);
    forall i | 0 <= i < |xs| ensures Does(m, mid, xs[i], s1, exit, s1, xss[i]) {
      LoopCodeDoes(m, a, cc, check, left, r.greedy, mid, xs[i], s1);
    }
    DoesBind(m, pc, st, s1, mid, s1, exit, s1, xs, xss);
    MatchesRepeat(m.s, r, cc, st);
  }
}
