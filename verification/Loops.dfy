// The loops that the compiler builds around an atom, given that the atom's code does what the atom means.
module Loops {
  import opened Bytecode
  import opened Subjects
  import opened Regex
  import opened Matcher
  import opened Simulation
  import opened StepFacts
  import opened CodeGen
  import opened StraightLine
  import opened Equations

  /** The captures of `r` exist in `st`. */
  predicate Fits(st: State, r: Regex, cc: nat) { 2 * (cc + Groups(r)) <= |st.caps| }

  ghost predicate Ready(m: Machine, r: Regex, cc: nat, st: State)
  {
    Good(m.s, st) && Fits(st, r, cc)
  }

  ghost predicate Delivers(m: Machine, a: Regex, cc: nat, x: seq<Instr>, pc: int, st: State, s1: seq<int>)
  {
    Ready(m, a, cc, st) ==> Does(m, pc, st, s1, pc + SizeAll(x), s1, Matches(m.s, a, cc, st))
  }

  /** The code `x` at `pc` implements the atom `a`. */
  ghost predicate Implements(m: Machine, a: Regex, cc: nat, x: seq<Instr>, pc: int)
  {
    forall st, s1 :: Delivers(m, a, cc, x, pc, st, s1)
  }

  lemma UseAtom(m: Machine, a: Regex, cc: nat, x: seq<Instr>, pc: int, st: State, s1: seq<int>)
    requires Implements(m, a, cc, x, pc) && Ready(m, a, cc, st)
    ensures Does(m, pc, st, s1, pc + SizeAll(x), s1, Matches(m.s, a, cc, st))
  {
    hide Does, Matches, SizeAll;
    assert Delivers(m, a, cc, x, pc, st, s1);
  }

  lemma ReadyNext(m: Machine, a: Regex, cc: nat, st: State, xs: seq<State>)
    requires Ready(m, a, cc, st) && AllFollow(m.s, st, xs)
    ensures forall i :: 0 <= i < |xs| ==> Ready(m, a, cc, xs[i])
  {
  }

  // ---------- layout ----------

  lemma LoadedFirst(b: seq<Byte>, pc: nat, i: Instr, rest: seq<Instr>)
    requires Loaded(b, pc, [i] + rest)
    ensures Fetch(b, pc) == i && Loaded(b, pc + Size(i), rest)
  {
    hide Fetch;
    assert ([i] + rest)[1..] == rest;
  }

  lemma SizeFirst(i: Instr, rest: seq<Instr>)
    ensures SizeAll([i] + rest) == Size(i) + SizeAll(rest)
  {
    hide Size;
    assert ([i] + rest)[1..] == rest;
  }

  lemma SizeOne(i: Instr)
    ensures SizeAll([i]) == Size(i)
  {
    hide Size;
    assert [i][1..] == [];
  }

  lemma LastTwo(b: seq<Byte>, pc: nat, x: seq<Instr>, i: Instr, j: Instr)
    requires Loaded(b, pc, x + [i, j])
    ensures Loaded(b, pc, x) && Fetch(b, pc + SizeAll(x)) == i && Fetch(b, pc + SizeAll(x) + Size(i)) == j
    ensures SizeAll(x + [i, j]) == SizeAll(x) + Size(i) + Size(j)
  {
    hide Fetch, Size;
    assert [i, j] == [i] + [j];
    LoadedSplit(b, pc, x, [i, j]);
    LoadedFirst(b, pc + SizeAll(x), i, [j]);
    SizeAllAppend(x, [i, j]);
    SizeFirst(i, [j]);
    SizeOne(j);
  }

  lemma LastOne(b: seq<Byte>, pc: nat, x: seq<Instr>, i: Instr)
    requires Loaded(b, pc, x + [i])
    ensures Loaded(b, pc, x) && Fetch(b, pc + SizeAll(x)) == i && SizeAll(x + [i]) == SizeAll(x) + Size(i)
  {
    hide Fetch, Size;
    LoadedSplit(b, pc, x, [i]);
    SizeAllAppend(x, [i]);
    SizeOne(i);
  }

  lemma RoundLayout(b: seq<Byte>, pc: nat, x: seq<Instr>, check: bool)
    requires Loaded(b, pc, Round(x, check))
    ensures SizeAll(Round(x, check)) == RoundSize(x, check)
    ensures Loaded(b, pc + Flag(check), x)
    ensures check ==> Fetch(b, pc) == PushCharPos && Fetch(b, pc + 1 + SizeAll(x)) == CheckAdvance
  {
    hide Fetch, Loaded, SizeAll;
    if check {
      assert Round(x, check) == [PushCharPos] + (x + [CheckAdvance]);
      LoadedFirst(b, pc, PushCharPos, x + [CheckAdvance]);
      LastOne(b, pc + 1, x, CheckAdvance);
      SizeFirst(PushCharPos, x + [CheckAdvance]);
    }
  }

  // ---------- one round ----------

  lemma AtRoundEnd(m: Machine, pc: int, x: State, s1: seq<int>, p: nat, exit: int, s2: seq<int>, ys: seq<State>)
    requires Fetch(m.code, pc) == CheckAdvance && InBounds(m.s, x)
    requires x.pos == p ==> ys == []
    requires x.pos != p ==> Does(m, pc + 1, x, s1, exit, s2, ys)
    ensures Does(m, pc, x, s1 + [p], exit, s2, ys)
  {
    hide Fetch, Does, Moves, Step;
    AtCheckAdvance(m, pc, x, s1, p);
    if x.pos == p {
      DoesFail(m, pc, x, s1 + [p], exit, s2);
    } else {
      DoesAfter(m, pc, x, s1 + [p], pc + 1, x, s1, exit, s2, ys);
    }
  }

  /** One round of the atom followed by `xss`, where rounds that do not advance are dropped. */
  lemma RoundDoes(m: Machine, a: Regex, cc: nat, check: bool, pc: nat, st: State, s1: seq<int>,
                  exit: int, s2: seq<int>, xss: seq<seq<State>>)
    requires Ready(m, a, cc, st) && check == NeedCheckAdvance(Code(m.s.canon, a, cc))
    requires Loaded(m.code, pc, Round(Code(m.s.canon, a, cc), check))
    requires Implements(m, a, cc, Code(m.s.canon, a, cc), pc + Flag(check))
    requires |xss| == |Matches(m.s, a, cc, st)|
    requires forall i :: 0 <= i < |xss| ==>
      var x := Matches(m.s, a, cc, st)[i];
      if x.pos == st.pos then xss[i] == []
      else Does(m, pc + RoundSize(Code(m.s.canon, a, cc), check), x, s1, exit, s2, xss[i])
    ensures Does(m, pc, st, s1, exit, s2, Join(xss))
  {
    hide Fetch, Does, Moves, Step, Code, Matches, Loaded, SizeAll, Implements, Scan;
    var x := Code(m.s.canon, a, cc);
    var xs := Matches(m.s, a, cc, st);
    RoundLayout(m.code, pc, x, check);
    if check {
      var p, end := st.pos, pc + 1 + SizeAll(x);
      UseAtom(m, a, cc, x, pc + 1, st, s1 + [p]);
      forall i | 0 <= i < |xs| ensures Does(m, end, xs[i], s1 + [p], exit, s2, xss[i]) {
        AtRoundEnd(m, end, xs[i], s1, p, exit, s2, xss[i]);
      }
      DoesBind(m, pc + 1, st, s1 + [p], end, s1 + [p], exit, s2, xs, xss);
      AtPushCharPos(m, pc, st, s1);
      DoesAfter(m, pc, st, s1, pc + 1, st, s1 + [p], exit, s2, Join(xss));
    } else {
      UseAtom(m, a, cc, x, pc, st, s1);
      AdvancingAtom(m.s, a, cc, st);
      DoesBind(m, pc, st, s1, pc + SizeAll(x), s1, exit, s2, xs, xss);
    }
  }

  /** A split in front of a round: greedy tries the round first, lazy tries to leave first. */
  lemma ForkDoes(m: Machine, pc: nat, greedy: bool, off: int, st: State, s1: seq<int>, exit: int, s2: seq<int>,
                 inner: seq<State>)
    requires Fetch(m.code, pc) == Split(greedy, off) && InBounds(m.s, st)
    requires Does(m, pc + 5, st, s1, exit, s2, inner)
    requires Does(m, pc + 5 + off, st, s1, exit, s2, [st])
    ensures Does(m, pc, st, s1, exit, s2, if greedy then inner + [st] else [st] + inner)
  {
    hide Fetch, Does, Forks;
    AtSplitInstr(m, pc, st, s1, greedy, off);
    if greedy {
      DoesFork(m, pc, st, s1, pc + 5, pc + 5 + off, exit, s2, inner, [st]);
    } else {
      DoesFork(m, pc, st, s1, pc + 5 + off, pc + 5, exit, s2, [st], inner);
    }
  }

  // ---------- an optional round ----------

  lemma {:induction false} OptionalDoes(m: Machine, a: Regex, cc: nat, check: bool, greedy: bool, pc: nat, st: State, s1: seq<int>)
    requires Ready(m, a, cc, st) && check == NeedCheckAdvance(Code(m.s.canon, a, cc))
    requires var x := Code(m.s.canon, a, cc);
             Fetch(m.code, pc) == Split(greedy, RoundSize(x, check)) && Loaded(m.code, pc + 5, Round(x, check)) &&
             Implements(m, a, cc, x, pc + 5 + Flag(check))
    ensures Does(m, pc, st, s1, pc + 5 + RoundSize(Code(m.s.canon, a, cc), check), s1, UpTo(m.s, a, cc, Times(1), greedy, st))
  {
    hide Fetch, Does, Code, Matches, Loaded, SizeAll, Implements, UpTo, Scan;
    var x := Code(m.s.canon, a, cc);
    var xs := Matches(m.s, a, cc, st);
    var xss := RoundEach(m.s, a, cc, Times(0), greedy, st, xs);
    var exit := pc + 5 + RoundSize(x, check);
    forall i | 0 <= i < |xs| && xs[i].pos != st.pos ensures Does(m, exit, xs[i], s1, exit, s1, xss[i]) {
      UpToNone(m.s, a, cc, greedy, xs[i]);
      DoesNothing(m, exit, xs[i], s1);
    }
    RoundDoes(m, a, cc, check, pc + 5, st, s1, exit, s1, xss);
    DoesNothing(m, exit, st, s1);
    ForkDoes(m, pc, greedy, RoundSize(x, check), st, s1, exit, s1, Join(xss));
    UpToRound(m.s, a, cc, Times(1), greedy, st);
  }

  lemma UpToNone(s: Subject, a: Regex, cc: nat, greedy: bool, st: State)
    requires Good(s, st)
    ensures UpTo(s, a, cc, Times(0), greedy, st) == [st]
  {
    hide Matches;
  }

  // ---------- unlimited rounds ----------

  lemma {:induction false} UnlimitedDoes(m: Machine, a: Regex, cc: nat, check: bool, greedy: bool, pc: nat, st: State, s1: seq<int>)
    requires Ready(m, a, cc, st) && check == NeedCheckAdvance(Code(m.s.canon, a, cc))
    requires var x := Code(m.s.canon, a, cc); var n := RoundSize(x, check);
             Fetch(m.code, pc) == Split(greedy, n + 5) && Loaded(m.code, pc + 5, Round(x, check)) &&
             Fetch(m.code, pc + 5 + n) == Goto(-(n + 10)) && Implements(m, a, cc, x, pc + 5 + Flag(check))
    ensures Does(m, pc, st, s1, pc + 10 + RoundSize(Code(m.s.canon, a, cc), check), s1, UpTo(m.s, a, cc, Unlimited, greedy, st))
    decreases |m.s.units| - st.pos
  {
    hide Fetch, Does, Code, Matches, Loaded, SizeAll, Implements, UpTo, Scan, Moves;
    var x := Code(m.s.canon, a, cc);
    var n: int := RoundSize(x, check);
    var xs := Matches(m.s, a, cc, st);
    var xss := RoundEach(m.s, a, cc, Unlimited, greedy, st, xs);
    var end, exit := pc + 5 + n, pc + 10 + n;
    ReadyNext(m, a, cc, st, xs);
    forall i | 0 <= i < |xs| && xs[i].pos != st.pos ensures Does(m, end, xs[i], s1, exit, s1, xss[i]) {
      assert Follows(m.s, st, xs[i]);
      UnlimitedDoes(m, a, cc, check, greedy, pc, xs[i], s1);
      AtGoto(m, end, xs[i], s1, -(n + 10));
      DoesAfter(m, end, xs[i], s1, pc, xs[i], s1, exit, s1, xss[i]);
    }
    RoundDoes(m, a, cc, check, pc + 5, st, s1, exit, s1, xss);
    DoesNothing(m, exit, st, s1);
    ForkDoes(m, pc, greedy, n + 5, st, s1, exit, s1, Join(xss));
    UpToRound(m.s, a, cc, Unlimited, greedy, st);
  }

  // ---------- counted rounds ----------

  lemma AtCountedEnd(m: Machine, pc: int, back: int, n: nat, x: State, s1: seq<int>, exit: int, ys: seq<State>)
    requires Fetch(m.code, pc) == Loop(-back) && Fetch(m.code, pc + 5) == Drop && exit == pc + 6
    requires 1 <= n <= INT32_MAX && InBounds(m.s, x)
    requires n == 1 ==> ys == [x]
    requires n > 1 ==> Does(m, pc + 5 - back, x, s1 + [n - 1], exit, s1, ys)
    ensures Does(m, pc, x, s1 + [n], exit, s1, ys)
  {
    hide Fetch, Does, Moves;
    AtLoop(m, pc, x, s1, -back, n);
    if n == 1 {
      DoesNothing(m, exit, x, s1);
      AtDrop(m, pc + 5, x, s1, 0);
      DoesAfter(m, pc + 5, x, s1 + [0], exit, x, s1, exit, s1, [x]);
      DoesAfter(m, pc, x, s1 + [n], pc + 5, x, s1 + [0], exit, s1, [x]);
    } else {
      DoesAfter(m, pc, x, s1 + [n], pc + 5 - back, x, s1 + [n - 1], exit, s1, ys);
    }
  }

  lemma {:induction false} CountedDoes(m: Machine, a: Regex, cc: nat, check: bool, greedy: bool, k: nat, pc: nat, st: State, s1: seq<int>)
    requires Ready(m, a, cc, st) && check == NeedCheckAdvance(Code(m.s.canon, a, cc)) && 1 <= k <= INT32_MAX
    requires var x := Code(m.s.canon, a, cc); var n := RoundSize(x, check);
             Fetch(m.code, pc) == Split(greedy, n + 5) && Loaded(m.code, pc + 5, Round(x, check)) &&
             Fetch(m.code, pc + 5 + n) == Loop(-(n + 10)) && Fetch(m.code, pc + 10 + n) == Drop &&
             Implements(m, a, cc, x, pc + 5 + Flag(check))
    ensures Does(m, pc, st, s1 + [k], pc + 11 + RoundSize(Code(m.s.canon, a, cc), check), s1,
                 UpTo(m.s, a, cc, Times(k), greedy, st))
    decreases k
  {
    hide Fetch, Does, Code, Matches, Loaded, SizeAll, Implements, UpTo, Scan, Moves;
    var x := Code(m.s.canon, a, cc);
    var n: int := RoundSize(x, check);
    var xs := Matches(m.s, a, cc, st);
    var xss := RoundEach(m.s, a, cc, Times(k - 1), greedy, st, xs);
    var end, exit := pc + 5 + n, pc + 11 + n;
    ReadyNext(m, a, cc, st, xs);
    forall i | 0 <= i < |xs| && xs[i].pos != st.pos ensures Does(m, end, xs[i], s1 + [k], exit, s1, xss[i]) {
      if k == 1 {
        UpToNone(m.s, a, cc, greedy, xs[i]);
      } else {
        CountedDoes(m, a, cc, check, greedy, k - 1, pc, xs[i], s1);
      }
      AtCountedEnd(m, end, n + 10, k, xs[i], s1, exit, xss[i]);
    }
    RoundDoes(m, a, cc, check, pc + 5, st, s1 + [k], exit, s1, xss);
    DoesNothing(m, exit, st, s1);
    AtDrop(m, exit - 1, st, s1, k);
    DoesAfter(m, exit - 1, st, s1 + [k], exit, st, s1, exit, s1, [st]);
    ForkDoes(m, pc, greedy, n + 5, st, s1 + [k], exit, s1, Join(xss));
    UpToRound(m.s, a, cc, Times(k), greedy, st);
  }

  // ---------- mandatory rounds ----------

  lemma {:induction false} ExactlyDoes(m: Machine, a: Regex, cc: nat, k: nat, pc: nat, st: State, s1: seq<int>)
    requires Ready(m, a, cc, st) && 1 <= k <= INT32_MAX
    requires var x := Code(m.s.canon, a, cc);
             Fetch(m.code, pc + SizeAll(x)) == Loop(-(SizeAll(x) + 5)) && Fetch(m.code, pc + SizeAll(x) + 5) == Drop &&
             Implements(m, a, cc, x, pc)
    ensures Does(m, pc, st, s1 + [k], pc + SizeAll(Code(m.s.canon, a, cc)) + 6, s1, Exactly(m.s, a, cc, k, st))
    decreases k
  {
    hide Fetch, Does, Code, Matches, SizeAll, Implements, Exactly;
    var x := Code(m.s.canon, a, cc);
    var xs := Matches(m.s, a, cc, st);
    var xss := ExactlyEach(m.s, a, cc, k - 1, st, xs);
    var end, exit := pc + SizeAll(x), pc + SizeAll(x) + 6;
    ReadyNext(m, a, cc, st, xs);
    forall i | 0 <= i < |xs| ensures Does(m, end, xs[i], s1 + [k], exit, s1, xss[i]) {
      if k == 1 {
        ExactlyNone(m.s, a, cc, xs[i]);
      } else {
        ExactlyDoes(m, a, cc, k - 1, pc, xs[i], s1);
      }
      AtCountedEnd(m, end, SizeAll(x) + 5, k, xs[i], s1, exit, xss[i]);
    }
    UseAtom(m, a, cc, x, pc, st, s1 + [k]);
    DoesBind(m, pc, st, s1 + [k], end, s1 + [k], exit, s1, xs, xss);
    ExactlyRound(m.s, a, cc, k, st);
  }

  lemma ExactlyNone(s: Subject, a: Regex, cc: nat, st: State)
    requires Good(s, st)
    ensures Exactly(s, a, cc, 0, st) == [st]
  {
    hide Matches;
  }

  // ---------- at least one round of an atom that always advances ----------

  lemma {:induction false} PlusDoes(m: Machine, a: Regex, cc: nat, greedy: bool, pc: nat, st: State, s1: seq<int>)
    requires Ready(m, a, cc, st) && !NeedCheckAdvance(Code(m.s.canon, a, cc))
    requires var x := Code(m.s.canon, a, cc);
             Fetch(m.code, pc + SizeAll(x)) == Split(!greedy, -(SizeAll(x) + 5)) && Implements(m, a, cc, x, pc)
    ensures Does(m, pc, st, s1, pc + SizeAll(Code(m.s.canon, a, cc)) + 5, s1,
                 Join(UpToEach(m.s, a, cc, Unlimited, greedy, st, Matches(m.s, a, cc, st))))
    decreases |m.s.units| - st.pos
  {
    hide Fetch, Does, Code, Matches, SizeAll, Implements, UpTo, Scan;
    var x := Code(m.s.canon, a, cc);
    var xs := Matches(m.s, a, cc, st);
    var xss := UpToEach(m.s, a, cc, Unlimited, greedy, st, xs);
    var end, exit := pc + SizeAll(x), pc + SizeAll(x) + 5;
    ReadyNext(m, a, cc, st, xs);
    AdvancingAtom(m.s, a, cc, st);
    forall i | 0 <= i < |xs| ensures Does(m, end, xs[i], s1, exit, s1, xss[i]) {
      assert Follows(m.s, st, xs[i]);
      PlusDoes(m, a, cc, greedy, pc, xs[i], s1);
      PlusSplit(m, a, cc, greedy, pc, end, exit, xs[i], s1);
    }
    UseAtom(m, a, cc, x, pc, st, s1);
    DoesBind(m, pc, st, s1, end, s1, exit, s1, xs, xss);
  }

  lemma AllRoundsCount(s: Subject, a: Regex, cc: nat, greedy: bool, st: State, xs: seq<State>)
    requires Good(s, st) && AllFollow(s, st, xs) && Advances(st, xs)
    ensures UpToEach(s, a, cc, Unlimited, greedy, st, xs) == RoundEach(s, a, cc, Unlimited, greedy, st, xs)
  {
    hide UpTo, Matches;
  }

  lemma PlusSplit(m: Machine, a: Regex, cc: nat, greedy: bool, pc: nat, end: nat, exit: nat, st: State, s1: seq<int>)
    requires Ready(m, a, cc, st) && !NeedCheckAdvance(Code(m.s.canon, a, cc))
    requires Fetch(m.code, end) == Split(!greedy, pc - exit) && exit == end + 5
    requires Does(m, pc, st, s1, exit, s1, Join(UpToEach(m.s, a, cc, Unlimited, greedy, st, Matches(m.s, a, cc, st))))
    ensures Does(m, end, st, s1, exit, s1, UpTo(m.s, a, cc, Unlimited, greedy, st))
  {
    hide Fetch, Does, Code, Matches, UpTo, Scan, Forks;
    var xs := Matches(m.s, a, cc, st);
    AdvancingAtom(m.s, a, cc, st);
    AllRoundsCount(m.s, a, cc, greedy, st, xs);
    var inner := Join(RoundEach(m.s, a, cc, Unlimited, greedy, st, xs));
    UpToRound(m.s, a, cc, Unlimited, greedy, st);
    DoesNothing(m, exit, st, s1);
    AtSplitInstr(m, end, st, s1, !greedy, pc - exit);
    if greedy {
      DoesFork(m, end, st, s1, pc, exit, exit, s1, inner, [st]);
    } else {
      DoesFork(m, end, st, s1, exit, pc, exit, s1, [st], inner);
    }
  }

  // ---------- the code of LoopCode ----------

  lemma LoopLayout(b: seq<Byte>, pc: nat, a: seq<Instr>, check: bool, greedy: bool, back: Instr, tail: seq<Instr>)
    requires Loaded(b, pc, [Split(greedy, RoundSize(a, check) + 5)] + (Round(a, check) + ([back] + tail)))
    ensures Fetch(b, pc) == Split(greedy, RoundSize(a, check) + 5)
    ensures Loaded(b, pc + 5, Round(a, check)) && Loaded(b, pc + 5 + Flag(check), a)
    ensures Fetch(b, pc + 5 + RoundSize(a, check)) == back
    ensures Loaded(b, pc + 5 + RoundSize(a, check) + Size(back), tail)
    ensures SizeAll([Split(greedy, RoundSize(a, check) + 5)] + (Round(a, check) + ([back] + tail))) ==
            5 + RoundSize(a, check) + Size(back) + SizeAll(tail)
  {
    hide Fetch, Loaded, SizeAll, Round;
    var split, round := Split(greedy, RoundSize(a, check) + 5), Round(a, check);
    LoadedFirst(b, pc, split, round + ([back] + tail));
    LoadedSplit(b, pc + 5, round, [back] + tail);
    RoundLayout(b, pc + 5, a, check);
    LoadedFirst(b, pc + 5 + RoundSize(a, check), back, tail);
    SizeFirst(split, round + ([back] + tail));
    SizeAllAppend(round, [back] + tail);
    SizeFirst(back, tail);
  }

  lemma UnlimitedLayout(b: seq<Byte>, pc: nat, a: seq<Instr>, check: bool, greedy: bool)
    requires Loaded(b, pc, LoopCode(a, check, Unlimited, greedy))
    ensures var n := RoundSize(a, check);
            Fetch(b, pc) == Split(greedy, n + 5) && Loaded(b, pc + 5, Round(a, check)) &&
            Loaded(b, pc + 5 + Flag(check), a) && Fetch(b, pc + 5 + n) == Goto(-((n as int) + 10)) &&
            SizeAll(LoopCode(a, check, Unlimited, greedy)) == n + 10
  {
    hide Fetch, Loaded, SizeAll, Round;
    var back := Goto(-((RoundSize(a, check) as int) + 10));
    assert [back] + [] == [back];
    LoopLayout(b, pc, a, check, greedy, back, []);
    SizeNone();
  }

  lemma SizeNone()
    ensures SizeAll([]) == 0
  {
  }

  lemma CountedLayout(b: seq<Byte>, pc: nat, a: seq<Instr>, check: bool, greedy: bool, k: nat)
    requires k > 0 && Loaded(b, pc, LoopCode(a, check, Times(k), greedy))
    ensures var n := RoundSize(a, check);
            Fetch(b, pc) == PushI32(k) && Fetch(b, pc + 5) == Split(greedy, n + 5) &&
            Loaded(b, pc + 10, Round(a, check)) && Loaded(b, pc + 10 + Flag(check), a) &&
            Fetch(b, pc + 10 + n) == Loop(-((n as int) + 10)) && Fetch(b, pc + 15 + n) == Drop &&
            SizeAll(LoopCode(a, check, Times(k), greedy)) == n + 16
  {
    hide Fetch, Loaded, SizeAll, Round;
    var n := RoundSize(a, check);
    var back := Loop(-((n as int) + 10));
    var rest := [Split(greedy, n + 5)] + (Round(a, check) + ([back] + [Drop]));
    assert [back] + [Drop] == [back, Drop] && [Drop] + [] == [Drop];
    assert LoopCode(a, check, Times(k), greedy) == [PushI32(k)] + rest;
    LoadedFirst(b, pc, PushI32(k), rest);
    LoopLayout(b, pc + 5, a, check, greedy, back, [Drop]);
    LoadedFirst(b, pc + 15 + n, Drop, []);
    SizeFirst(PushI32(k), rest);
    SizeOne(Drop);
  }

  /** Where the atom stands inside the code of LoopCode. */
  function AtomOffset(check: bool, left: Count): nat
  {
    (if left.Unlimited? then 5 else 10) + Flag(check)
  }

  lemma LoopAtom(b: seq<Byte>, pc: nat, a: seq<Instr>, check: bool, left: Count, greedy: bool)
    requires left != Times(0) && Loaded(b, pc, LoopCode(a, check, left, greedy))
    ensures Loaded(b, pc + AtomOffset(check, left), a)
  {
    hide Fetch, Loaded, SizeAll, LoopCode;
    match left
    case Unlimited => UnlimitedLayout(b, pc, a, check, greedy);
    case Times(k) => CountedLayout(b, pc, a, check, greedy, k);
  }

  predicate Bounded(left: Count) { left.Times? ==> left.n <= INT32_MAX }

  lemma LoopCodeDoes(m: Machine, a: Regex, cc: nat, check: bool, left: Count, greedy: bool, pc: nat, st: State, s1: seq<int>)
    requires Ready(m, a, cc, st) && check == NeedCheckAdvance(Code(m.s.canon, a, cc)) && Bounded(left)
    requires Loaded(m.code, pc, LoopCode(Code(m.s.canon, a, cc), check, left, greedy))
    requires left != Times(0) ==> Implements(m, a, cc, Code(m.s.canon, a, cc), pc + AtomOffset(check, left))
    ensures Does(m, pc, st, s1, pc + SizeAll(LoopCode(Code(m.s.canon, a, cc), check, left, greedy)), s1,
                 UpTo(m.s, a, cc, left, greedy, st))
  {
    hide Fetch, Does, Code, Matches, Loaded, Implements, UpTo, Scan, Round, Moves;
    var x := Code(m.s.canon, a, cc);
    match left
    case Unlimited =>
      UnlimitedLayout(m.code, pc, x, check, greedy);
      UnlimitedDoes(m, a, cc, check, greedy, pc, st, s1);
    case Times(k) =>
      if k == 0 {
        UpToNone(m.s, a, cc, greedy, st);
        DoesNothing(m, pc, st, s1);
      } else {
        CountedLayout(m.code, pc, x, check, greedy, k);
        CountedDoes(m, a, cc, check, greedy, k, pc + 5, st, s1);
        AtPushI32(m, pc, st, s1, k);
        DoesAfter(m, pc, st, s1, pc + 5, st, s1 + [k], pc + 16 + RoundSize(x, check), s1,
                  UpTo(m.s, a, cc, left, greedy, st));
      }
  }
}
