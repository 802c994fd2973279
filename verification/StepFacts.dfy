// What one step does at each kind of instruction, seen from the state of an ordinary (not nested) run.
module StepFacts {
  import opened Bytecode
  import opened Subjects
  import opened Regex
  import opened Matcher
  import opened Simulation

  lemma AtGoto(m: Machine, pc: int, st: State, s1: seq<int>, off: int)
    requires Fetch(m.code, pc) == Goto(off) && InBounds(m.s, st)
    ensures Moves(m, pc, st, s1, pc + 5 + off, st, s1)
  {
    hide Fetch;
  }

  lemma AtSplitInstr(m: Machine, pc: int, st: State, s1: seq<int>, nextFirst: bool, off: int)
    requires Fetch(m.code, pc) == Split(nextFirst, off) && InBounds(m.s, st)
    ensures nextFirst ==> Forks(m, pc, st, s1, pc + 5, pc + 5 + off)
    ensures !nextFirst ==> Forks(m, pc, st, s1, pc + 5 + off, pc + 5)
  {
    hide Fetch;
  }

  lemma AtLookahead(m: Machine, pc: int, st: State, s1: seq<int>, negated: bool, off: int)
    requires Fetch(m.code, pc) == Lookahead(negated, off) && InBounds(m.s, st)
    ensures Looks(m, pc, st, s1, pc + 5, LookKind(negated), pc + 5 + off)
  {
    hide Fetch;
  }

  lemma AtSave(m: Machine, pc: int, st: State, s1: seq<int>, k: nat, end: bool)
    requires Fetch(m.code, pc) == (if end then SaveEnd(k) else SaveStart(k))
    requires InBounds(m.s, st) && 2 * k + 1 < |st.caps|
    ensures Moves(m, pc, st, s1, pc + 2, SetCap(st, 2 * k + Flag(end), st.pos), s1)
  {
    hide Fetch;
  }

  lemma AtReset(m: Machine, pc: int, st: State, s1: seq<int>, a: int, b: int)
    requires Fetch(m.code, pc) == SaveReset(a, b) && InBounds(m.s, st) && 0 <= a && 2 * b + 1 < |st.caps|
    ensures Moves(m, pc, st, s1, pc + 3, ResetCaps(st, a, b), s1)
  {
    hide Fetch, ResetCaps;
  }

  lemma AtPushI32(m: Machine, pc: int, st: State, s1: seq<int>, n: int)
    requires Fetch(m.code, pc) == PushI32(n) && InBounds(m.s, st)
    ensures Moves(m, pc, st, s1, pc + 5, st, s1 + [n])
  {
    hide Fetch;
  }

  lemma AtPushCharPos(m: Machine, pc: int, st: State, s1: seq<int>)
    requires Fetch(m.code, pc) == PushCharPos && InBounds(m.s, st)
    ensures Moves(m, pc, st, s1, pc + 1, st, s1 + [st.pos])
  {
    hide Fetch;
  }

  lemma AtDrop(m: Machine, pc: int, st: State, s1: seq<int>, n: int)
    requires Fetch(m.code, pc) == Drop && InBounds(m.s, st)
    ensures Moves(m, pc, st, s1 + [n], pc + 1, st, s1)
  {
    hide Fetch;
    LastFront(s1, n);
  }

  lemma AtLoop(m: Machine, pc: int, st: State, s1: seq<int>, off: int, n: int)
    requires Fetch(m.code, pc) == Loop(off) && InBounds(m.s, st) && 1 <= n <= TWO64
    ensures Moves(m, pc, st, s1 + [n], if n > 1 then pc + 5 + off else pc + 5, st, s1 + [n - 1])
  {
    hide Fetch;
    LastFront(s1, n);
  }

  lemma AtCheckAdvance(m: Machine, pc: int, st: State, s1: seq<int>, p: int)
    requires Fetch(m.code, pc) == CheckAdvance && InBounds(m.s, st)
    ensures st.pos != p ==> Moves(m, pc, st, s1 + [p], pc + 1, st, s1)
    ensures st.pos == p ==> forall ks :: Step(m, Run(pc, st, s1 + [p], ks, [])) == Backtrack(ks)
  {
    hide Fetch;
    LastFront(s1, p);
  }

  ghost predicate Tries(m: Machine, pc: int, st: State, s1: seq<int>, next: int, xs: seq<State>)
  {
    forall ks :: Step(m, Run(pc, st, s1, ks, [])) == Continue(m, Run(pc, st, s1, ks, []), next, xs)
  }

  /** An instruction that either moves on in one state or fails. */
  lemma DoesTry(m: Machine, pc: int, st: State, s1: seq<int>, next: int, xs: seq<State>)
    requires |xs| <= 1 && Tries(m, pc, st, s1, next, xs)
    ensures Does(m, pc, st, s1, next, s1, xs)
  {
    hide Step, Yields, Reaches;
    if xs == [] {
      forall ks ensures Step(m, Run(pc, st, s1, ks, [])) == Backtrack(ks) {
        assert Step(m, Run(pc, st, s1, ks, [])) == Continue(m, Run(pc, st, s1, ks, []), next, xs);
      }
      DoesFail(m, pc, st, s1, next, s1);
    } else {
      forall ks ensures Step(m, Run(pc, st, s1, ks, [])) == Run(next, xs[0], s1, ks, []) {
        assert Step(m, Run(pc, st, s1, ks, [])) == Continue(m, Run(pc, st, s1, ks, []), next, xs);
      }
      DoesNothing(m, next, xs[0], s1);
      DoesAfter(m, pc, st, s1, next, xs[0], s1, next, s1, [xs[0]]);
      assert xs == [xs[0]];
    }
  }

  lemma DoesCharInstr(m: Machine, pc: int, st: State, s1: seq<int>, i: Instr)
    requires Fetch(m.code, pc) == i && IsCharInstr(i) && InBounds(m.s, st)
    ensures Does(m, pc, st, s1, pc + Size(i), s1, TakeChar(m.s, st, (x: CodePoint) => Consumes(m.s, i, x)))
  {
    hide Fetch, Size, Does;
    DoesTry(m, pc, st, s1, pc + Size(i), TakeChar(m.s, st, (x: CodePoint) => Consumes(m.s, i, x)));
  }

  lemma DoesTestInstr(m: Machine, pc: int, st: State, s1: seq<int>, i: Instr)
    requires Fetch(m.code, pc) == i && IsTestInstr(i) && InBounds(m.s, st)
    ensures Does(m, pc, st, s1, pc + 1, s1, if Passes(m.s, i, st.pos) then [st] else [])
  {
    hide Fetch, Does;
    DoesTry(m, pc, st, s1, pc + 1, if Passes(m.s, i, st.pos) then [st] else []);
  }

  lemma DoesBackref(m: Machine, pc: int, st: State, s1: seq<int>, k: nat, icase: bool)
    requires Fetch(m.code, pc) == BackReference(k, icase) && InBounds(m.s, st)
    ensures Does(m, pc, st, s1, pc + 2, s1, TakeBackref(m.s, st, k, icase))
  {
    hide Fetch, Does, TakeBackref;
    DoesTry(m, pc, st, s1, pc + 2, TakeBackref(m.s, st, k, icase));
  }
}
