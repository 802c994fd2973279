// The defining equations of `Matches` and `Code` for the compound patterns, one by one, so that the
// proofs about them need not look at the other cases.
module Equations {
  import opened Bytecode
  import opened Subjects
  import opened Regex
  import opened CodeGen

  lemma CodeConcat(canon: Canon, r: Regex, cc: nat)
    requires r.Concat?
    ensures Code(canon, r, cc) == Code(canon, r.first, cc) + Code(canon, r.second, cc + Groups(r.first))
  {
  }

  lemma CodeAlternate(canon: Canon, r: Regex, cc: nat)
    requires r.Alternate?
    ensures Code(canon, r, cc) == AlternateCode(Code(canon, r.first, cc), Code(canon, r.second, cc + Groups(r.first)))
  {
    hide AlternateCode;
  }

  lemma CodeGroup(canon: Canon, r: Regex, cc: nat)
    requires r.Group?
    ensures Code(canon, r, cc) == GroupCode(cc, Code(canon, r.body, cc + 1))
  {
    hide GroupCode;
  }

  lemma CodeLook(canon: Canon, r: Regex, cc: nat)
    requires r.Look?
    ensures Code(canon, r, cc) == LookCode(r.negated, Code(canon, r.body, cc))
  {
    hide LookCode;
  }

  lemma CodeRepeat(canon: Canon, r: Regex, cc: nat)
    requires r.Repeat?
    ensures Code(canon, r, cc) ==
            RepeatCode(Code(canon, r.body, cc), cc, Groups(r.body), r.times.min, r.times.max, r.greedy)
  {
    hide RepeatCode;
  }

  lemma MatchesConcat(s: Subject, r: Regex, cc: nat, st: State)
    requires Good(s, st) && r.Concat?
    ensures Matches(s, r, cc, st) ==
            Join(MatchesEach(s, r.second, cc + Groups(r.first), st, Matches(s, r.first, cc, st)))
  {
    hide UpTo, Exactly, TakeChar, TakeBackref, AllFollow, Join;
  }

  lemma MatchesAlternate(s: Subject, r: Regex, cc: nat, st: State)
    requires Good(s, st) && r.Alternate?
    ensures Matches(s, r, cc, st) == Matches(s, r.first, cc, st) + Matches(s, r.second, cc + Groups(r.first), st)
  {
    hide UpTo, Exactly, TakeChar, TakeBackref, AllFollow, Join;
  }

  lemma MatchesGroup(s: Subject, r: Regex, cc: nat, st: State)
    requires Good(s, st) && r.Group?
    requires Good(s, SetCap(st, 2 * cc, st.pos))
    ensures var xs, ys := Matches(s, r.body, cc + 1, SetCap(st, 2 * cc, st.pos)), Matches(s, r, cc, st);
            |ys| == |xs| && forall i :: 0 <= i < |xs| ==> ys[i] == SetCap(xs[i], 2 * cc + 1, xs[i].pos)
  {
    hide UpTo, Exactly, TakeChar, TakeBackref, AllFollow, Join, SetCap;
  }

  lemma MatchesLook(s: Subject, r: Regex, cc: nat, st: State)
    requires Good(s, st) && r.Look?
    ensures Matches(s, r, cc, st) == LookResult(r.negated, st, Matches(s, r.body, cc, st))
  {
    hide UpTo, Exactly, TakeChar, TakeBackref, AllFollow, Join;
  }

  lemma EnterFollows(s: Subject, r: Regex, cc: nat, st: State)
    requires Good(s, st) && r.Repeat?
    ensures Follows(s, st, EnterRepeat(r, cc, st))
  {
  }

  lemma SetCapFollows(s: Subject, st: State, k: nat)
    requires Good(s, st)
    ensures Follows(s, st, SetCap(st, k, st.pos))
  {
  }

  lemma MatchesRepeat(s: Subject, r: Regex, cc: nat, st: State)
    requires Good(s, st) && r.Repeat? && Good(s, EnterRepeat(r, cc, st))
    requires Follows(s, st, EnterRepeat(r, cc, st))
    ensures AllFollow(s, st, Exactly(s, r.body, cc, r.times.min, EnterRepeat(r, cc, st)))
    ensures Matches(s, r, cc, st) ==
            Join(UpToEach(s, r.body, cc, Extra(r.times.min, r.times.max), r.greedy, st,
                          Exactly(s, r.body, cc, r.times.min, EnterRepeat(r, cc, st))))
  {
    hide UpTo, Exactly, TakeChar, TakeBackref, Join, EnterRepeat;
  }

  lemma UpToRound(s: Subject, a: Regex, cc: nat, left: Count, greedy: bool, st: State)
    requires Good(s, st) && left != Times(0)
    ensures var inner := Join(RoundEach(s, a, cc, Less(left), greedy, st, Matches(s, a, cc, st)));
            UpTo(s, a, cc, left, greedy, st) == if greedy then inner + [st] else [st] + inner
  {
    hide Matches, Join, RoundEach, AllFollow;
  }

  lemma ExactlyRound(s: Subject, a: Regex, cc: nat, n: nat, st: State)
    requires Good(s, st) && n > 0
    ensures Exactly(s, a, cc, n, st) == Join(ExactlyEach(s, a, cc, n - 1, st, Matches(s, a, cc, st)))
  {
    hide Matches, Join, ExactlyEach, AllFollow;
  }
}
