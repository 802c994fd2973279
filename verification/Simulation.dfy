// How runs of the matcher compose. `Does` says of a stretch of code that it delivers a list of
// states at its exit: the first one on entry, each next one when the matcher backtracks into it,
// and that it finally hands failure down to the choice points it found on entry.
module Simulation {
  import opened Bytecode
  import opened Subjects
  import opened Regex
  import opened Matcher

  ghost predicate Reaches(m: Machine, c: Config, d: Config)
  {
    exists n: nat :: Steps(m, c, n) == d
  }

  lemma ReachesSelf(m: Machine, c: Config)
    ensures Reaches(m, c, c)
  {
    assert Steps(m, c, 0) == c;
  }

  lemma ReachesStep(m: Machine, c: Config, d: Config)
    requires Reaches(m, Step(m, c), d)
    ensures Reaches(m, c, d)
  {
    hide Step;
    var n: nat :| Steps(m, Step(m, c), n) == d;
    assert Steps(m, c, n + 1) == d;
  }

  lemma {:induction false} StepsAdd(m: Machine, c: Config, a: nat, b: nat)
    ensures Steps(m, c, a + b) == Steps(m, Steps(m, c, a), b)
    decreases a
  {
    hide Step;
    if a > 0 {
      StepsAdd(m, Step(m, c), a - 1, b);
    }
  }

  lemma ReachesTrans(m: Machine, c: Config, d: Config, e: Config)
    requires Reaches(m, c, d) && Reaches(m, d, e)
    ensures Reaches(m, c, e)
  {
    hide Steps;
    var a: nat :| Steps(m, c, a) == d;
    var b: nat :| Steps(m, d, b) == e;
    StepsAdd(m, c, a, b);
  }

  /** No lookahead among these choice points. */
  predicate Plain(ks: seq<Choice>)
  {
    forall i :: 0 <= i < |ks| ==> ks[i].kind.KSplit? || ks[i].kind.KGreedy?
  }

  ghost predicate Yields(m: Machine, c: Config, exit: int, stack: seq<int>, ks: seq<Choice>, xs: seq<State>)
    decreases |xs|, 1
  {
    if xs == [] then Reaches(m, c, Backtrack(ks))
    else exists more :: YieldsVia(m, c, exit, stack, ks, xs, more)
  }

  ghost predicate YieldsVia(m: Machine, c: Config, exit: int, stack: seq<int>, ks: seq<Choice>, xs: seq<State>,
                            more: seq<Choice>)
    requires xs != []
    decreases |xs|, 0
  {
    Plain(more) &&
    Reaches(m, c, Run(exit, xs[0], stack, ks + more, [])) &&
    Yields(m, Backtrack(ks + more), exit, stack, ks, xs[1..])
  }

  lemma YieldsLater(m: Machine, c: Config, d: Config, exit: int, stack: seq<int>, ks: seq<Choice>, xs: seq<State>)
    requires Reaches(m, c, d) && Yields(m, d, exit, stack, ks, xs)
    ensures Yields(m, c, exit, stack, ks, xs)
  {
    hide Reaches;
    if xs == [] {
      ReachesTrans(m, c, d, Backtrack(ks));
    } else {
      var more :| YieldsVia(m, d, exit, stack, ks, xs, more);
      ReachesTrans(m, c, d, Run(exit, xs[0], stack, ks + more, []));
      assert YieldsVia(m, c, exit, stack, ks, xs, more);
    }
  }

  lemma {:induction false} YieldsAppend(m: Machine, c: Config, exit: int, stack: seq<int>, ks: seq<Choice>,
                                        more: seq<Choice>, xs: seq<State>, ys: seq<State>)
    requires Plain(more)
    requires Yields(m, c, exit, stack, ks + more, xs)
    requires Yields(m, Backtrack(ks + more), exit, stack, ks, ys)
    ensures Yields(m, c, exit, stack, ks, xs + ys)
    decreases |xs|, 0
  {
    hide Reaches;
    if xs == [] {
      assert xs + ys == ys;
      YieldsLater(m, c, Backtrack(ks + more), exit, stack, ks, ys);
    } else {
      var k1 :| YieldsVia(m, c, exit, stack, ks + more, xs, k1);
      assert (ks + more) + k1 == ks + (more + k1);
      assert (xs + ys)[0] == xs[0] && (xs + ys)[1..] == xs[1..] + ys;
      YieldsAppendTail(m, exit, stack, ks, more, k1, xs[1..], ys);
      assert YieldsVia(m, c, exit, stack, ks, xs + ys, more + k1);
    }
  }

  lemma {:induction false} YieldsAppendTail(m: Machine, exit: int, stack: seq<int>, ks: seq<Choice>,
                                            more: seq<Choice>, k1: seq<Choice>, xs: seq<State>, ys: seq<State>)
    requires Plain(more)
    requires Yields(m, Backtrack((ks + more) + k1), exit, stack, ks + more, xs)
    requires Yields(m, Backtrack(ks + more), exit, stack, ks, ys)
    ensures Yields(m, Backtrack(ks + (more + k1)), exit, stack, ks, xs + ys)
    decreases |xs|, 1
  {
    assert (ks + more) + k1 == ks + (more + k1);
    YieldsAppend(m, Backtrack(ks + (more + k1)), exit, stack, ks, more, xs, ys);
  }

  // ---------- stretches of code ----------

  /** From `pc` in state `st` the code delivers `xs` at `exit`, whatever choice points lie below. */
  ghost predicate Does(m: Machine, pc: int, st: State, s1: seq<int>, exit: int, s2: seq<int>, xs: seq<State>)
  {
    forall ks :: Yields(m, Run(pc, st, s1, ks, []), exit, s2, ks, xs)
  }

  /** One step from `pc` to `next` that leaves the choice points alone. */
  ghost predicate Moves(m: Machine, pc: int, st: State, s1: seq<int>, next: int, st': State, s2: seq<int>)
  {
    forall ks :: Step(m, Run(pc, st, s1, ks, [])) == Run(next, st', s2, ks, [])
  }

  lemma DoesNothing(m: Machine, pc: int, st: State, s1: seq<int>)
    ensures Does(m, pc, st, s1, pc, s1, [st])
  {
    hide Reaches;
    forall ks ensures Yields(m, Run(pc, st, s1, ks, []), pc, s1, ks, [st]) {
      ReachesSelf(m, Run(pc, st, s1, ks, []));
      ReachesSelf(m, Backtrack(ks));
      assert ks + [] == ks;
      assert YieldsVia(m, Run(pc, st, s1, ks, []), pc, s1, ks, [st], []);
    }
  }

  lemma DoesFail(m: Machine, pc: int, st: State, s1: seq<int>, exit: int, s2: seq<int>)
    requires forall ks :: Step(m, Run(pc, st, s1, ks, [])) == Backtrack(ks)
    ensures Does(m, pc, st, s1, exit, s2, [])
  {
    hide Step, Reaches;
    forall ks ensures Yields(m, Run(pc, st, s1, ks, []), exit, s2, ks, []) {
      ReachesSelf(m, Backtrack(ks));
      ReachesStep(m, Run(pc, st, s1, ks, []), Backtrack(ks));
    }
  }

  lemma DoesAfter(m: Machine, pc: int, st: State, s1: seq<int>, next: int, st': State, s2: seq<int>,
                  exit: int, s3: seq<int>, xs: seq<State>)
    requires Moves(m, pc, st, s1, next, st', s2)
    requires Does(m, next, st', s2, exit, s3, xs)
    ensures Does(m, pc, st, s1, exit, s3, xs)
  {
    hide Step, Reaches, Yields;
    forall ks ensures Yields(m, Run(pc, st, s1, ks, []), exit, s3, ks, xs) {
      var c, d := Run(pc, st, s1, ks, []), Run(next, st', s2, ks, []);
      assert Step(m, c) == d;
      ReachesSelf(m, d);
      ReachesStep(m, c, d);
      YieldsLater(m, c, d, exit, s3, ks, xs);
    }
  }

  lemma {:induction false} YieldsBind(m: Machine, c: Config, mid: int, s2: seq<int>, exit: int, s3: seq<int>,
                                      ks: seq<Choice>, xs: seq<State>, xss: seq<seq<State>>)
    requires |xs| == |xss|
    requires Yields(m, c, mid, s2, ks, xs)
    requires forall i :: 0 <= i < |xs| ==> Does(m, mid, xs[i], s2, exit, s3, xss[i])
    ensures Yields(m, c, exit, s3, ks, Join(xss))
    decreases |xs|
  {
    hide Step, Reaches;
    if xs != [] {
      var more :| YieldsVia(m, c, mid, s2, ks, xs, more);
      var d := Run(mid, xs[0], s2, ks + more, []);
      YieldsBind(m, Backtrack(ks + more), mid, s2, exit, s3, ks, xs[1..], xss[1..]);
      assert Does(m, mid, xs[0], s2, exit, s3, xss[0]);
      assert Yields(m, d, exit, s3, ks + more, xss[0]);
      YieldsAppend(m, d, exit, s3, ks, more, xss[0], Join(xss[1..]));
      YieldsLater(m, c, d, exit, s3, ks, Join(xss));
    }
  }

  /** Sequential composition: every state delivered at `mid` is carried on from there. */
  lemma DoesBind(m: Machine, pc: int, st: State, s1: seq<int>, mid: int, s2: seq<int>, exit: int, s3: seq<int>,
                 xs: seq<State>, xss: seq<seq<State>>)
    requires |xs| == |xss|
    requires Does(m, pc, st, s1, mid, s2, xs)
    requires forall i :: 0 <= i < |xs| ==> Does(m, mid, xs[i], s2, exit, s3, xss[i])
    ensures Does(m, pc, st, s1, exit, s3, Join(xss))
  {
    hide Step, Reaches, Yields;
    forall ks ensures Yields(m, Run(pc, st, s1, ks, []), exit, s3, ks, Join(xss)) {
      YieldsBind(m, Run(pc, st, s1, ks, []), mid, s2, exit, s3, ks, xs, xss);
    }
  }

  lemma {:induction false} JoinSingletons(ys: seq<State>, yss: seq<seq<State>>)
    requires |yss| == |ys| && forall i :: 0 <= i < |ys| ==> yss[i] == [ys[i]]
    ensures Join(yss) == ys
  {
    if ys != [] {
      JoinSingletons(ys[1..], yss[1..]);
      assert [ys[0]] + ys[1..] == ys;
    }
  }

  /** A single instruction after each delivered state. */
  lemma DoesMap(m: Machine, pc: int, st: State, s1: seq<int>, mid: int, s2: seq<int>, exit: int, s3: seq<int>,
                xs: seq<State>, ys: seq<State>)
    requires |xs| == |ys|
    requires Does(m, pc, st, s1, mid, s2, xs)
    requires forall i :: 0 <= i < |xs| ==> Moves(m, mid, xs[i], s2, exit, ys[i], s3)
    ensures Does(m, pc, st, s1, exit, s3, ys)
  {
    hide Moves, Does;
    var yss := seq(|ys|, i requires 0 <= i < |ys| => [ys[i]]);
    JoinSingletons(ys, yss);
    forall i | 0 <= i < |xs| ensures Does(m, mid, xs[i], s2, exit, s3, yss[i]) {
      DoesNothing(m, exit, ys[i], s3);
      DoesAfter(m, mid, xs[i], s2, exit, ys[i], s3, exit, s3, [ys[i]]);
    }
    DoesBind(m, pc, st, s1, mid, s2, exit, s3, xs, yss);
  }

  ghost predicate Forks(m: Machine, pc: int, st: State, s1: seq<int>, go: int, save: int)
  {
    forall ks :: Step(m, Run(pc, st, s1, ks, [])) == Run(go, st, s1, ks + [Choice(KSplit, save, st, s1)], [])
  }

  lemma LastFront<T>(ks: seq<T>, k: T)
    ensures Last(ks + [k]) == k && Front(ks + [k]) == ks
  {
  }

  lemma PopSplit(m: Machine, ks: seq<Choice>, pc: int, st: State, s1: seq<int>)
    ensures Step(m, Backtrack(ks + [Choice(KSplit, pc, st, s1)])) == Run(pc, st, s1, ks, [])
  {
    LastFront(ks, Choice(KSplit, pc, st, s1));
  }

  /** A split explores one branch to exhaustion, then the other. */
  lemma DoesFork(m: Machine, pc: int, st: State, s1: seq<int>, go: int, save: int, exit: int, s2: seq<int>,
                 xs: seq<State>, ys: seq<State>)
    requires Forks(m, pc, st, s1, go, save)
    requires Does(m, go, st, s1, exit, s2, xs)
    requires Does(m, save, st, s1, exit, s2, ys)
    ensures Does(m, pc, st, s1, exit, s2, xs + ys)
  {
    hide Step, Reaches, Yields;
    forall ks ensures Yields(m, Run(pc, st, s1, ks, []), exit, s2, ks, xs + ys) {
      var k := Choice(KSplit, save, st, s1);
      var c, d, e := Run(pc, st, s1, ks, []), Run(go, st, s1, ks + [k], []), Run(save, st, s1, ks, []);
      assert Step(m, c) == d;
      ReachesSelf(m, d);
      ReachesStep(m, c, d);
      PopSplit(m, ks, save, st, s1);
      ReachesSelf(m, e);
      ReachesStep(m, Backtrack(ks + [k]), e);
      assert Yields(m, e, exit, s2, ks, ys);
      YieldsLater(m, Backtrack(ks + [k]), e, exit, s2, ks, ys);
      assert Yields(m, d, exit, s2, ks + [k], xs);
      YieldsAppend(m, d, exit, s2, ks, [k], xs, ys);
      YieldsLater(m, c, d, exit, s2, ks, xs + ys);
    }
  }

  // ---------- lookahead ----------

  /** A match discards every plain choice point above the lookahead that is being tried. */
  lemma {:induction false} UnwindPlain(m: Machine, caps: seq<int>, ks: seq<Choice>, more: seq<Choice>)
    requires Plain(more)
    ensures Reaches(m, Unwind(Some(caps), ks + more), Unwind(Some(caps), ks))
    decreases |more|
  {
    var c := Unwind(Some(caps), ks + more);
    if more == [] {
      assert ks + more == ks;
      ReachesSelf(m, c);
    } else {
      var d := Unwind(Some(caps), ks + Front(more));
      assert ks + more == (ks + Front(more)) + [Last(more)];
      LastFront(ks + Front(more), Last(more));
      assert Step(m, c) == d;
      UnwindPlain(m, caps, ks, Front(more));
      ReachesStep(m, c, Unwind(Some(caps), ks));
    }
  }

  ghost predicate Looks(m: Machine, pc: int, st: State, s1: seq<int>, body: int, kind: Kind, after: int)
  {
    forall ks :: Step(m, Run(pc, st, s1, ks, [])) == Run(body, st, s1, ks + [Choice(kind, after, st, s1)], [])
  }

  function LookKind(negated: bool): Kind { if negated then KNegLook else KLook }

  lemma PopLook(m: Machine, negated: bool, after: int, st: State, s1: seq<int>, won: Option<seq<int>>, ks: seq<Choice>)
    ensures var c := Unwind(won, ks + [Choice(LookKind(negated), after, st, s1)]);
            Step(m, c) ==
            (if won.None? then (if negated then Run(after, st, s1, ks, []) else Backtrack(ks))
             else if negated then Backtrack(ks) else Run(after, State(st.pos, won.value), s1, ks, []))
  {
    LastFront(ks, Choice(LookKind(negated), after, st, s1));
  }

  /** What becomes of a lookahead once its body has failed or reached its `match`. */
  lemma LookOutcome(m: Machine, negated: bool, after: int, st: State, s1: seq<int>, won: Option<seq<int>>,
                    ks: seq<Choice>, c: Config)
    requires Reaches(m, c, Unwind(won, ks + [Choice(LookKind(negated), after, st, s1)]))
    ensures Yields(m, c, after, s1, ks,
                   LookResult(negated, st, if won.None? then [] else [State(st.pos, won.value)]))
  {
    hide Step, Reaches, Yields;
    var d := Unwind(won, ks + [Choice(LookKind(negated), after, st, s1)]);
    PopLook(m, negated, after, st, s1, won, ks);
    var e := Step(m, d);
    ReachesSelf(m, e);
    ReachesStep(m, d, e);
    ReachesTrans(m, c, d, e);
    var ys := LookResult(negated, st, if won.None? then [] else [State(st.pos, won.value)]);
    if ys == [] {
      EndsInFailure(m, c, after, s1, ks);
    } else {
      DoesNothing(m, after, ys[0], s1);
      assert Does(m, after, ys[0], s1, after, s1, ys);
      YieldsLater(m, c, e, after, s1, ks, ys);
    }
  }

  lemma EndsInFailure(m: Machine, c: Config, exit: int, s1: seq<int>, ks: seq<Choice>)
    requires Reaches(m, c, Backtrack(ks))
    ensures Yields(m, c, exit, s1, ks, [])
  {
  }

  lemma DoesLook(m: Machine, pc: int, st: State, s1: seq<int>, body: int, negated: bool, after: int,
                 end: int, xs: seq<State>)
    requires Looks(m, pc, st, s1, body, LookKind(negated), after)
    requires Does(m, body, st, s1, end, s1, xs)
    requires Fetch(m.code, end) == Match && forall i :: 0 <= i < |xs| ==> InBounds(m.s, xs[i])
    ensures Does(m, pc, st, s1, after, s1, LookResult(negated, st, xs))
  {
    hide Reaches;
    forall ks ensures Yields(m, Run(pc, st, s1, ks, []), after, s1, ks, LookResult(negated, st, xs)) {
      LookRuns(m, pc, st, s1, body, negated, after, end, xs, ks);
    }
  }

  lemma LookRuns(m: Machine, pc: int, st: State, s1: seq<int>, body: int, negated: bool, after: int,
                 end: int, xs: seq<State>, ks: seq<Choice>)
    requires Looks(m, pc, st, s1, body, LookKind(negated), after)
    requires Does(m, body, st, s1, end, s1, xs)
    requires Fetch(m.code, end) == Match && forall i :: 0 <= i < |xs| ==> InBounds(m.s, xs[i])
    ensures Yields(m, Run(pc, st, s1, ks, []), after, s1, ks, LookResult(negated, st, xs))
  {
    hide Reaches, Step;
    var k := Choice(LookKind(negated), after, st, s1);
    var c, d := Run(pc, st, s1, ks, []), Run(body, st, s1, ks + [k], []);
    assert Step(m, c) == d;
    ReachesSelf(m, d);
    ReachesStep(m, c, d);
    assert Yields(m, d, end, s1, ks + [k], xs);
    if xs == [] {
      ReachesTrans(m, c, d, Backtrack(ks + [k]));
      LookOutcome(m, negated, after, st, s1, None, ks, c);
    } else {
      var more :| YieldsVia(m, d, end, s1, ks + [k], xs, more);
      var e := Run(end, xs[0], s1, (ks + [k]) + more, []);
      var caps := xs[0].caps;
      StepMatch(m, end, xs[0], s1, (ks + [k]) + more);
      UnwindPlain(m, caps, ks + [k], more);
      ReachesStep(m, e, Unwind(Some(caps), ks + [k]));
      ReachesTrans(m, d, e, Unwind(Some(caps), ks + [k]));
      ReachesTrans(m, c, d, Unwind(Some(caps), ks + [k]));
      LookOutcome(m, negated, after, st, s1, Some(caps), ks, c);
    }
  }

  lemma StepMatch(m: Machine, pc: int, st: State, s1: seq<int>, ks: seq<Choice>)
    requires Fetch(m.code, pc) == Match && InBounds(m.s, st)
    ensures Step(m, Run(pc, st, s1, ks, [])) == Unwind(Some(st.caps), ks)
  {
  }
}
