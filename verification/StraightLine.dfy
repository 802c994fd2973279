// What the two linear scans over an atom's code promise about the matches of the atom.
module StraightLine {
  import opened Bytecode
  import opened Subjects
  import opened Regex
  import opened Matcher
  import opened CodeGen
  import opened LeafCode
  import opened Equations

  lemma {:induction false} SimpleLengthAppend(x: seq<Instr>, y: seq<Instr>)
    ensures SimpleLength(x + y) ==
            if SimpleLength(x) < 0 || SimpleLength(y) < 0 then -1 else SimpleLength(x) + SimpleLength(y)
  {
    if x == [] {
      assert x + y == y;
    } else {
      assert (x + y)[0] == x[0] && (x + y)[1..] == x[1..] + y;
      SimpleLengthAppend(x[1..], y);
    }
  }

  lemma {:induction false} BackUpAdd(s: Subject, p: nat, a: nat, b: nat)
    requires BackUp(s, p, a) >= 0
    ensures BackUp(s, p, a + b) == BackUp(s, BackUp(s, p, a), b)
    decreases a
  {
    if a > 0 {
      BackUpAdd(s, PrevPos(s, p), a - 1, b);
    }
  }

  /** `xs` is at most one state, `n` characters further on and with the same captures. */
  predicate Strides(s: Subject, st: State, n: nat, xs: seq<State>)
  {
    |xs| <= 1 && (xs != [] ==> xs[0].caps == st.caps && BackUp(s, xs[0].pos, n) == st.pos)
  }

  lemma JoinAtMostOne(xs: seq<State>, xss: seq<seq<State>>)
    requires |xs| == |xss| && |xs| <= 1
    ensures Join(xss) == if xs == [] then [] else xss[0]
  {
    if xs != [] {
      assert xss == [xss[0]];
      JoinOne(xss[0]);
    }
  }

  lemma {:induction false} JoinUnits(xs: seq<State>, xss: seq<seq<State>>)
    requires |xs| == |xss| && forall i :: 0 <= i < |xs| ==> xss[i] == [xs[i]]
    ensures Join(xss) == xs
  {
    if xs != [] {
      JoinUnits(xs[1..], xss[1..]);
      assert [xs[0]] + xs[1..] == xs;
    }
  }

  /** No extra rounds: only the mandatory ones count. */
  lemma NoExtraRounds(s: Subject, a: Regex, cc: nat, n: nat, greedy: bool, st: State)
    requires Good(s, st) && n < INT32_MAX && (n > 0 || Groups(a) == 0)
    ensures Matches(s, Repeat(a, MinMax(n, n), greedy), cc, st) == Exactly(s, a, cc, n, st)
  {
    hide Matches, Exactly;
    EnterFollows(s, Repeat(a, MinMax(n, n), greedy), cc, st);
    MatchesRepeat(s, Repeat(a, MinMax(n, n), greedy), cc, st);
    var xs := Exactly(s, a, cc, n, st);
    var xss := UpToEach(s, a, cc, Extra(n, n), greedy, st, xs);
    forall i | 0 <= i < |xs| ensures xss[i] == [xs[i]] {
      assert xss[i] == UpTo(s, a, cc, Times(0), greedy, xs[i]);
    }
    JoinUnits(xs, xss);
  }

  lemma ExactlyOnce(s: Subject, a: Regex, cc: nat, st: State)
    requires Good(s, st)
    ensures Exactly(s, a, cc, 1, st) == Matches(s, a, cc, st)
  {
    hide Matches;
    JoinUnits(Matches(s, a, cc, st), ExactlyEach(s, a, cc, 0, st, Matches(s, a, cc, st)));
  }

  /** The quantified forms that leave a straight-line atom behind. */
  lemma SimpleRepeat(a: seq<Instr>, cc: nat, groups: nat, min: nat, max: nat, greedy: bool)
    requires min <= max <= INT32_MAX
    ensures var code := RepeatCode(a, cc, groups, min, max, greedy);
            SimpleLength(code) >= 0 ==>
            (min == 0 && max == 0 && groups == 0 && code == []) || (min == 1 && max == 1 && code == a)
  {
    var code, check := RepeatCode(a, cc, groups, min, max, greedy), NeedCheckAdvance(a);
    if UsesSimpleQuant(a, max, greedy) {
      assert code[0].SimpleGreedyQuant?;
    } else if min == 0 {
      if groups > 0 {
        assert code[0].SaveReset?;
      } else if max > 0 {
        assert code[0].Split? || code[0].PushI32?;
      }
    } else if min == 1 && max == INT32_MAX && !check {
      SimpleLengthAppend(a, [Split(!greedy, -(RoundSize(a, check) + 5))]);
    } else if min == 1 {
      var loop := LoopCode(a, check, Extra(min, max), greedy);
      SimpleLengthAppend(a, loop);
      if max > 1 {
        assert loop[0].Split? || loop[0].PushI32?;
      } else {
        assert a + loop == a;
      }
    } else {
      assert code[0].PushI32?;
    }
  }

  /** re_is_simple_quantifier: an accepted atom matches in at most one way, consumes exactly the counted
      characters, and leaves the captures alone. */
  lemma {:induction false} SimpleAtom(s: Subject, r: Regex, cc: nat, st: State)
    requires Good(s, st)
    requires SimpleLength(Code(s.canon, r, cc)) >= 0
    ensures Strides(s, st, SimpleLength(Code(s.canon, r, cc)), Matches(s, r, cc, st))
    decreases r, 1
  {
    if IsChar(r) {
      SimpleChar(s, r, cc, st);
    } else if r.Concat? {
      SimpleConcat(s, r, cc, st);
    } else if r.Repeat? {
      SimpleRepeatAtom(s, r, cc, st);
    }
  }

  lemma {:induction false} SimpleRepeatAtom(s: Subject, r: Regex, cc: nat, st: State)
    requires r.Repeat? && Good(s, st)
    requires SimpleLength(Code(s.canon, r, cc)) >= 0
    ensures Strides(s, st, SimpleLength(Code(s.canon, r, cc)), Matches(s, r, cc, st))
    decreases r, 0
  {
    hide Code, Matches, RepeatCode;
    CodeRepeat(s.canon, r, cc);
    SimpleRepeat(Code(s.canon, r.body, cc), cc, Groups(r.body), r.times.min, r.times.max, r.greedy);
    if r.times.max == 0 {
      NoExtraRounds(s, r.body, cc, 0, r.greedy, st);
    } else {
      NoExtraRounds(s, r.body, cc, 1, r.greedy, st);
      ExactlyOnce(s, r.body, cc, st);
      SimpleAtom(s, r.body, cc, st);
    }
  }

  lemma SimpleChar(s: Subject, r: Regex, cc: nat, st: State)
    requires IsChar(r) && Good(s, st)
    ensures SimpleLength(Code(s.canon, r, cc)) == 1
    ensures Strides(s, st, 1, Matches(s, r, cc, st))
  {
    var code := Code(s.canon, r, cc);
    assert |code| == 1 && SingleChar(code[0]) && code[1..] == [];
    if st.pos < |s.units| {
      PrevUndoesGet(s, st.pos);
      var p := GetChar(s, st.pos, |s.units|).1;
      assert BackUp(s, p, 1) == BackUp(s, PrevPos(s, p), 0);
    }
  }

  lemma {:induction false} SimpleConcat(s: Subject, r: Regex, cc: nat, st: State)
    requires r.Concat? && Good(s, st)
    requires SimpleLength(Code(s.canon, r, cc)) >= 0
    ensures Strides(s, st, SimpleLength(Code(s.canon, r, cc)), Matches(s, r, cc, st))
    decreases r, 0
  {
    hide Code, Matches, Strides;
    var x, y := Code(s.canon, r.first, cc), Code(s.canon, r.second, cc + Groups(r.first));
    CodeConcat(s.canon, r, cc);
    SimpleLengthAppend(x, y);
    SimpleAtom(s, r.first, cc, st);
    SimpleSecond(s, r, cc, st, SimpleLength(x), SimpleLength(y));
  }

  lemma {:induction false} SimpleSecond(s: Subject, r: Regex, cc: nat, st: State, n: nat, k: nat)
    requires r.Concat? && Good(s, st)
    requires Strides(s, st, n, Matches(s, r.first, cc, st))
    requires SimpleLength(Code(s.canon, r.second, cc + Groups(r.first))) == k
    ensures Strides(s, st, n + k, Matches(s, r, cc, st))
    decreases r.second, 2
  {
    hide Code, SimpleLength, Matches, BackUp, Groups;
    var xs := Matches(s, r.first, cc, st);
    if xs != [] {
      SimpleAtom(s, r.second, cc + Groups(r.first), xs[0]);
    }
    StridesJoin(s, st, n, k, xs, MatchesEach(s, r.second, cc + Groups(r.first), st, xs));
    MatchesConcat(s, r, cc, st);
  }

  lemma StridesJoin(s: Subject, st: State, n: nat, k: nat, xs: seq<State>, xss: seq<seq<State>>)
    requires |xs| == |xss| && Good(s, st) && AllFollow(s, st, xs) && Strides(s, st, n, xs)
    requires xs != [] ==> AllFollow(s, xs[0], xss[0]) && Strides(s, xs[0], k, xss[0])
    ensures AllFollow(s, st, Join(xss)) && Strides(s, st, n + k, Join(xss))
  {
    hide BackUp;
    JoinAtMostOne(xs, xss);
    if xs != [] {
      StridesAdd(s, st, xs[0], n, k, xss[0]);
    }
  }

  lemma StridesAdd(s: Subject, st: State, mid: State, n: nat, k: nat, xs: seq<State>)
    requires Good(s, st) && Follows(s, st, mid) && AllFollow(s, mid, xs)
    requires mid.caps == st.caps && BackUp(s, mid.pos, n) == st.pos
    requires Strides(s, mid, k, xs)
    ensures AllFollow(s, st, xs) && Strides(s, st, n + k, xs)
  {
    if xs != [] {
      BackUpAdd(s, xs[0].pos, k, n);
    }
  }

  // ---------- re_need_check_advance ----------

  predicate Advances(st: State, xs: seq<State>)
  {
    forall i :: 0 <= i < |xs| ==> st.pos < xs[i].pos
  }

  lemma {:induction false} JoinAdvances(s: Subject, st: State, xs: seq<State>, xss: seq<seq<State>>)
    requires |xs| == |xss| && AllFollow(s, st, xs)
    requires forall i :: 0 <= i < |xs| ==> AllFollow(s, xs[i], xss[i])
    requires Advances(st, xs) || forall i :: 0 <= i < |xs| ==> Advances(xs[i], xss[i])
    ensures Advances(st, Join(xss))
  {
    if xs != [] {
      assert AllFollow(s, xs[0], xss[0]) && Follows(s, st, xs[0]);
      assert Advances(st, xss[0]);
      JoinAdvances(s, st, xs[1..], xss[1..]);
    }
  }

  lemma {:induction false} ScanAppend(x: seq<Instr>, y: seq<Instr>)
    ensures Scan(x + y) == Both(Scan(x), Scan(y))
  {
    if x == [] {
      assert x + y == y;
    } else {
      assert (x + y)[0] == x[0] && (x + y)[1..] == x[1..] + y;
      ScanAppend(x[1..], y);
    }
  }

  lemma ScanFirst(i: Instr, y: seq<Instr>)
    ensures Scan([i] + y) == Both(MotionOf(i), Scan(y))
  {
    assert ([i] + y)[1..] == y;
  }

  lemma LoopUnknown(a: seq<Instr>, check: bool, left: Count, greedy: bool)
    ensures left != Times(0) ==> Scan(LoopCode(a, check, left, greedy)) == Unknown
    ensures left == Times(0) ==> LoopCode(a, check, left, greedy) == []
  {
    hide Scan, Round;
    var n: int, round := RoundSize(a, check), Round(a, check);
    match left
    case Unlimited => ScanFirst(Split(greedy, n + 5), round + [Goto(-(n + 10))]);
    case Times(k) =>
      if k > 0 {
        var tail := round + [Loop(-(n + 10)), Drop];
        ScanFirst(PushI32(k), [Split(greedy, n + 5)] + tail);
        ScanFirst(Split(greedy, n + 5), tail);
      }
  }

  /** The quantified forms in which re_need_check_advance sees only predictable instructions. */
  lemma PredictableRepeat(a: seq<Instr>, cc: nat, groups: nat, min: nat, max: nat, greedy: bool)
    requires min <= max <= INT32_MAX
    ensures var code := RepeatCode(a, cc, groups, min, max, greedy);
            !NeedCheckAdvance(code) ==> min == 1 && max == 1 && code == a
  {
    hide LoopCode, Round, SimpleLength;
    var code, check := RepeatCode(a, cc, groups, min, max, greedy), NeedCheckAdvance(a);
    var loop := LoopCode(a, check, Extra(min, max), greedy);
    LoopUnknown(a, check, Extra(min, max), greedy);
    if UsesSimpleQuant(a, max, greedy) {
      ScanFirst(SimpleGreedyQuant(SizeAll(a) + 1, min, max, SimpleLength(a)), a + [Match]);
    } else if min == 0 {
      ScanFirst(Split(greedy, RoundSize(a, check)), Round(a, check));
      ScanAppend(ResetCode(cc, groups),
                 if max == 1 then [Split(greedy, RoundSize(a, check))] + Round(a, check) else loop);
    } else if min == 1 && max == INT32_MAX && !check {
      ScanAppend(a, [Split(!greedy, -(RoundSize(a, check) + 5))]);
    } else if min == 1 {
      ScanAppend(a, loop);
    } else {
      var counted := a + [Loop(-(SizeAll(a) + 5)), Drop];
      ScanAppend(a, [Loop(-(SizeAll(a) + 5)), Drop]);
      ScanFirst(PushI32(min), counted);
      ScanAppend([PushI32(min)] + counted, loop);
    }
  }

  /** re_need_check_advance: when it answers false, every match of the atom moves the position. */
  lemma {:induction false} AdvancingAtom(s: Subject, r: Regex, cc: nat, st: State)
    requires Good(s, st)
    ensures !NeedCheckAdvance(Code(s.canon, r, cc)) ==> Advances(st, Matches(s, r, cc, st))
    decreases r, 1
  {
    match r
    case Concat(_, _) => AdvancingConcat(s, r, cc, st);
    case Group(_) => AdvancingGroup(s, r, cc, st);
    case Repeat(_, _, _) => AdvancingRepeat(s, r, cc, st);
    case Alternate(_, _) => ScanFirst(Code(s.canon, r, cc)[0], Code(s.canon, r, cc)[1..]);
    case Look(_, _) => ScanFirst(Code(s.canon, r, cc)[0], Code(s.canon, r, cc)[1..]);
    case Empty =>
    case _ => AdvancingLeaf(s, r, cc, st);
  }

  lemma AdvancingLeaf(s: Subject, r: Regex, cc: nat, st: State)
    requires (IsChar(r) || IsAssertion(r) || r.Backref?) && Good(s, st)
    ensures !NeedCheckAdvance(Code(s.canon, r, cc)) ==> Advances(st, Matches(s, r, cc, st))
  {
    if !IsChar(r) {
      var code := Code(s.canon, r, cc);
      assert code == [code[0]] + [];
      ScanFirst(code[0], []);
    }
  }

  lemma {:induction false} AdvancingGroup(s: Subject, r: Regex, cc: nat, st: State)
    requires r.Group? && Good(s, st)
    ensures !NeedCheckAdvance(Code(s.canon, r, cc)) ==> Advances(st, Matches(s, r, cc, st))
    decreases r, 0
  {
    hide Code, Matches;
    var x := Code(s.canon, r.body, cc + 1);
    CodeGroup(s.canon, r, cc);
    ScanFirst(SaveStart(cc), x + [SaveEnd(cc)]);
    ScanAppend(x, [SaveEnd(cc)]);
    SetCapFollows(s, st, 2 * cc);
    AdvancingAtom(s, r.body, cc + 1, SetCap(st, 2 * cc, st.pos));
    MatchesGroup(s, r, cc, st);
  }

  lemma {:induction false} AdvancingRepeat(s: Subject, r: Regex, cc: nat, st: State)
    requires r.Repeat? && Good(s, st)
    ensures !NeedCheckAdvance(Code(s.canon, r, cc)) ==> Advances(st, Matches(s, r, cc, st))
    decreases r, 0
  {
    hide Code, RepeatCode, Scan, Matches;
    var a := Code(s.canon, r.body, cc);
    CodeRepeat(s.canon, r, cc);
    PredictableRepeat(a, cc, Groups(r.body), r.times.min, r.times.max, r.greedy);
    if r.times.min == 1 && r.times.max == 1 {
      NoExtraRounds(s, r.body, cc, 1, r.greedy, st);
      ExactlyOnce(s, r.body, cc, st);
      AdvancingAtom(s, r.body, cc, st);
    }
  }

  lemma {:induction false} AdvancingConcat(s: Subject, r: Regex, cc: nat, st: State)
    requires r.Concat? && Good(s, st)
    ensures !NeedCheckAdvance(Code(s.canon, r, cc)) ==> Advances(st, Matches(s, r, cc, st))
    decreases r, 0
  {
    hide Code, Matches, Scan, MatchesEach, Advances;
    var a, b, cb := r.first, r.second, cc + Groups(r.first);
    var x, y := Code(s.canon, a, cc), Code(s.canon, b, cb);
    CodeConcat(s.canon, r, cc);
    MatchesConcat(s, r, cc, st);
    ScanAppend(x, y);
    AdvancingAtom(s, a, cc, st);
    var xs := Matches(s, a, cc, st);
    if Scan(y) == Moving {
      forall i | 0 <= i < |xs| ensures Advances(xs[i], Matches(s, b, cb, xs[i])) {
        AdvancingAtom(s, b, cb, xs[i]);
      }
    }
    if Scan(x) == Moving || Scan(y) == Moving {
      EachAdvances(s, b, cb, st, xs);
    }
  }

  lemma EachAdvances(s: Subject, b: Regex, cb: nat, st: State, xs: seq<State>)
    requires Good(s, st) && AllFollow(s, st, xs)
    requires Advances(st, xs) || forall i :: 0 <= i < |xs| ==> Advances(xs[i], Matches(s, b, cb, xs[i]))
    ensures Advances(st, Join(MatchesEach(s, b, cb, st, xs)))
  {
    hide Matches;
    JoinAdvances(s, st, xs, MatchesEach(s, b, cb, st, xs));
  }
}
