// simple_greedy_quant: the matcher runs a straight-line atom as often as it can, remembers only the number
// of rounds and the last position, and walks back with PREV_CHAR. This delivers the same states in the
// same order as the general loop.
module SimpleQuant {
  import opened Bytecode
  import opened Subjects
  import opened Regex
  import opened Matcher
  import opened Simulation
  import opened CodeGen
  import opened LeafCode
  import opened StraightLine
  import opened Equations

  // ---------- the reference side: rounds of an atom that matches in at most one way ----------

  /** From every state the atom matches at most once, `n` characters further on. */
  ghost predicate Stride(s: Subject, a: Regex, cc: nat, n: nat)
  {
    n > 0 && forall st :: Good(s, st) ==> Strides(s, st, n, Matches(s, a, cc, st))
  }

  lemma StrideAdvances(s: Subject, a: Regex, cc: nat, n: nat, st: State)
    requires Stride(s, a, cc, n) && Good(s, st) && Matches(s, a, cc, st) != []
    ensures var x := Matches(s, a, cc, st)[0];
            Matches(s, a, cc, st) == [x] && Follows(s, st, x) && x.pos > st.pos && x.caps == st.caps &&
            BackUp(s, x.pos, n) == st.pos
  {
    hide Matches;
    var xs := Matches(s, a, cc, st);
    assert Strides(s, st, n, xs);
    assert xs == [xs[0]] && Follows(s, st, xs[0]);
    assert BackUp(s, xs[0].pos, n) == BackUp(s, PrevPos(s, xs[0].pos), n - 1);
  }

  /** Greedy rounds of such an atom: all the rounds that fit, the longest first. */
  lemma {:induction false} UpToStride(s: Subject, a: Regex, cc: nat, n: nat, left: Count, st: State)
    requires Stride(s, a, cc, n) && Good(s, st)
    ensures var xs := Matches(s, a, cc, st);
            UpTo(s, a, cc, left, true, st) ==
            (if left == Times(0) || xs == [] then [] else UpTo(s, a, cc, Less(left), true, xs[0])) + [st]
  {
    hide Matches, BackUp, Stride;
    var xs := Matches(s, a, cc, st);
    if left == Times(0) {
      UpToZero(s, a, cc, st);
    } else {
      UpToRound(s, a, cc, left, true, st);
      var xss := RoundEach(s, a, cc, Less(left), true, st, xs);
      if xs != [] {
        StrideAdvances(s, a, cc, n, st);
        assert xss == [xss[0]];
        JoinOne(xss[0]);
      }
    }
  }

  lemma UpToZero(s: Subject, a: Regex, cc: nat, st: State)
    requires Good(s, st)
    ensures UpTo(s, a, cc, Times(0), true, st) == [st]
  {
    hide Matches;
  }

  /** Consecutive entries of `ds` are one atom apart and share their captures. */
  predicate Chain(s: Subject, n: nat, ds: seq<State>)
  {
    forall i :: 0 <= i < |ds| - 1 ==> ds[i].caps == ds[i + 1].caps && BackUp(s, ds[i].pos, n) == ds[i + 1].pos
  }

  lemma {:induction false} UpToChain(s: Subject, a: Regex, cc: nat, n: nat, left: Count, st: State)
    requires Stride(s, a, cc, n) && Good(s, st)
    ensures var ds := UpTo(s, a, cc, left, true, st);
            ds != [] && Last(ds) == st && Chain(s, n, ds)
    decreases |s.units| - st.pos
  {
    hide Matches, BackUp, Stride, UpTo;
    UpToStride(s, a, cc, n, left, st);
    var xs := Matches(s, a, cc, st);
    if left != Times(0) && xs != [] {
      StrideAdvances(s, a, cc, n, st);
      UpToChain(s, a, cc, n, Less(left), xs[0]);
    }
  }

  /** How many rounds remain out of `total` after `k` of them. */
  function Minus(total: Count, k: nat): Count
  {
    match total
    case Unlimited => Unlimited
    case Times(n) => Times(if n > k then n - k else 0)
  }

  predicate AtLeast(total: Count, k: nat) { total.Unlimited? || total.n >= k }

  lemma ExactlyStride(s: Subject, a: Regex, cc: nat, n: nat, k: nat, st: State)
    requires Stride(s, a, cc, n) && Good(s, st) && k > 0
    ensures var xs := Matches(s, a, cc, st);
            Exactly(s, a, cc, k, st) == (if xs == [] then [] else Exactly(s, a, cc, k - 1, xs[0]))
  {
    hide Matches, BackUp, Stride, Exactly;
    ExactlyRound(s, a, cc, k, st);
    var xs := Matches(s, a, cc, st);
    if xs != [] {
      StrideAdvances(s, a, cc, n, st);
      var xss := ExactlyEach(s, a, cc, k - 1, st, xs);
      assert xss == [xss[0]];
      JoinOne(xss[0]);
    }
  }

  /** Mandatory and optional rounds together are a prefix of the unrestricted descent. */
  lemma {:induction false} SplitChain(s: Subject, a: Regex, cc: nat, n: nat, total: Count, min: nat, st: State)
    requires Stride(s, a, cc, n) && Good(s, st) && AtLeast(total, min)
    ensures var ds := UpTo(s, a, cc, total, true, st); var xs := Exactly(s, a, cc, min, st);
            if |ds| <= min then xs == []
            else xs == [ds[|ds| - 1 - min]] && Good(s, xs[0]) &&
                 UpTo(s, a, cc, Minus(total, min), true, xs[0]) == ds[..|ds| - min]
    decreases min
  {
    hide Matches, BackUp, Stride, UpTo, Exactly;
    UpToChain(s, a, cc, n, total, st);
    var ds := UpTo(s, a, cc, total, true, st);
    if min == 0 {
      ExactlyZero(s, a, cc, st);
      assert ds[..|ds|] == ds;
      MinusZero(total);
    } else {
      UpToStride(s, a, cc, n, total, st);
      ExactlyStride(s, a, cc, n, min, st);
      var xs := Matches(s, a, cc, st);
      if xs != [] {
        StrideAdvances(s, a, cc, n, st);
        SplitChain(s, a, cc, n, Less(total), min - 1, xs[0]);
        MinusLess(total, min);
        var es := UpTo(s, a, cc, Less(total), true, xs[0]);
        assert ds == es + [st];
        assert |es| >= min ==> ds[..|ds| - min] == es[..|es| - (min - 1)];
      }
    }
  }

  lemma ExactlyZero(s: Subject, a: Regex, cc: nat, st: State)
    requires Good(s, st)
    ensures Exactly(s, a, cc, 0, st) == [st]
  {
    hide Matches;
  }

  lemma MinusZero(total: Count)
    ensures Minus(total, 0) == total
  {
  }

  lemma MinusLess(total: Count, k: nat)
    requires k > 0 && AtLeast(total, k)
    ensures Minus(Less(total), k - 1) == Minus(total, k) && AtLeast(Less(total), k - 1)
  {
  }

  /** The rounds still allowed after `q` of them. */
  function LeftAfter(q: nat, max: nat): Count
  {
    if max == INT32_MAX then Unlimited else Times(if max > q then max - q else 0)
  }

  /** The meaning of a greedy {min,max} of such an atom, read off one unrestricted descent. */
  lemma QuantMeaning(s: Subject, r: Regex, cc: nat, n: nat, st: State)
    requires r.Repeat? && r.greedy && Groups(r.body) == 0 && Stride(s, r.body, cc, n) && Good(s, st)
    ensures var ds := UpTo(s, r.body, cc, LeftAfter(0, r.times.max), true, st); var min := r.times.min;
            Matches(s, r, cc, st) == if |ds| <= min then [] else ds[..|ds| - min]
  {
    hide Matches, BackUp, Stride, UpTo, Exactly;
    var total, min := LeftAfter(0, r.times.max), r.times.min;
    SplitChain(s, r.body, cc, n, total, min, st);
    MatchesRepeat(s, r, cc, st);
    var xs := Exactly(s, r.body, cc, min, st);
    assert Extra(min, r.times.max) == Minus(total, min);
    var xss := UpToEach(s, r.body, cc, Minus(total, min), true, st, xs);
    if xs != [] {
      assert xss == [xss[0]];
      JoinOne(xss[0]);
    }
  }

  // ---------- the matcher inside simple_greedy_quant ----------

  /** What straight-line code does to a state. */
  function Straight(s: Subject, ins: seq<Instr>, st: State): (xs: seq<State>)
    requires InBounds(s, st)
    ensures |xs| <= 1 && forall i :: 0 <= i < |xs| ==> InBounds(s, xs[i])
    decreases |ins|
  {
    if ins == [] then [st] else
    var ys := StraightOne(s, ins[0], st);
    if ys == [] then [] else Straight(s, ins[1..], ys[0])
  }

  function StraightOne(s: Subject, i: Instr, st: State): (xs: seq<State>)
    requires InBounds(s, st)
    ensures |xs| <= 1 && forall i :: 0 <= i < |xs| ==> InBounds(s, xs[i]) && xs[i].caps == st.caps
  {
    if IsCharInstr(i) then TakeChar(s, st, (x: CodePoint) => Consumes(s, i, x))
    else if IsTestInstr(i) then (if Passes(s, i, st.pos) then [st] else [])
    else []
  }

  lemma StepStraight(m: Machine, i: Instr, pc: nat, st: State, s1: seq<int>, ks: seq<Choice>, fs: seq<Frame>)
    requires Fetch(m.code, pc) == i && (IsCharInstr(i) || IsTestInstr(i)) && InBounds(m.s, st)
    ensures var c := Run(pc, st, s1, ks, fs); var ys := StraightOne(m.s, i, st);
            Step(m, c) == if ys == [] then NoMatch(m, c) else Run(pc + Size(i), ys[0], s1, ks, fs)
  {
    hide Fetch, NoMatch, Size;
  }

  /** The nested run of an atom either ends at its `match` or reports failure to the quantifier. */
  lemma {:induction false} StraightRuns(m: Machine, ins: seq<Instr>, pc: nat, st: State, s1: seq<int>,
                                        ks: seq<Choice>, fs: seq<Frame>)
    requires fs != [] && Loaded(m.code, pc, ins) && SimpleLength(ins) >= 0 && InBounds(m.s, st)
    ensures var xs := Straight(m.s, ins, st); var c := Run(pc, st, s1, ks, fs);
            if xs == [] then Reaches(m, c, QuantDone(m, c))
            else xs[0].caps == st.caps && Reaches(m, c, Run(pc + SizeAll(ins), xs[0], s1, ks, fs))
    decreases |ins|
  {
    hide Fetch, Step, Reaches, QuantDone, TakeChar;
    var c := Run(pc, st, s1, ks, fs);
    if ins == [] {
      ReachesSelf(m, c);
    } else {
      var ys := StraightOne(m.s, ins[0], st);
      StepStraight(m, ins[0], pc, st, s1, ks, fs);
      if ys == [] {
        ReachesSelf(m, QuantDone(m, c));
        ReachesStep(m, c, QuantDone(m, c));
      } else {
        StraightRuns(m, ins[1..], pc + Size(ins[0]), ys[0], s1, ks, fs);
        var d := Run(pc + Size(ins[0]), ys[0], s1, ks, fs);
        QuantDoneSame(m, c, d);
        var e := if Straight(m.s, ins, st) == [] then QuantDone(m, c)
                 else Run(pc + SizeAll(ins), Straight(m.s, ins, st)[0], s1, ks, fs);
        ReachesStep(m, c, e);
      }
    }
  }

  lemma QuantDoneSame(m: Machine, c: Config, d: Config)
    requires c.Run? && d.Run? && c.frames == d.frames != [] && c.choices == d.choices && c.st.caps == d.st.caps
    ensures QuantDone(m, c) == QuantDone(m, d)
  {
    hide Fetch, NoMatch;
  }

  // ---------- straight-line code does what its pattern means ----------

  lemma {:induction false} StraightAppend(s: Subject, x: seq<Instr>, y: seq<Instr>, st: State)
    requires InBounds(s, st)
    ensures var xs := Straight(s, x, st);
            Straight(s, x + y, st) == if xs == [] then [] else Straight(s, y, xs[0])
    decreases |x|
  {
    hide StraightOne;
    if x == [] {
      assert x + y == y;
    } else {
      assert (x + y)[0] == x[0] && (x + y)[1..] == x[1..] + y;
      var ys := StraightOne(s, x[0], st);
      if ys != [] {
        StraightAppend(s, x[1..], y, ys[0]);
      }
    }
  }

  lemma StraightSingle(s: Subject, code: seq<Instr>, st: State)
    requires |code| == 1 && InBounds(s, st)
    ensures Straight(s, code, st) == StraightOne(s, code[0], st)
  {
    hide StraightOne;
    var ys := StraightOne(s, code[0], st);
    assert code[1..] == [];
    if ys != [] {
      assert Straight(s, code[1..], ys[0]) == [ys[0]];
    }
  }

  lemma {:induction false} StraightMeaning(s: Subject, r: Regex, cc: nat, st: State)
    requires SimpleLength(Code(s.canon, r, cc)) >= 0 && Good(s, st)
    ensures Straight(s, Code(s.canon, r, cc), st) == Matches(s, r, cc, st)
    decreases r, 1
  {
    if IsChar(r) {
      StraightChar(s, r, cc, st);
    } else if IsAssertion(r) {
      StraightTest(s, r, cc, st);
    } else if r.Concat? {
      StraightConcat(s, r, cc, st);
    } else if r.Repeat? {
      StraightRepeat(s, r, cc, st);
    }
  }

  lemma StraightChar(s: Subject, r: Regex, cc: nat, st: State)
    requires IsChar(r) && Good(s, st)
    ensures Straight(s, Code(s.canon, r, cc), st) == Matches(s, r, cc, st)
  {
    hide Code, Straight, Consumes, Accepts;
    CharAccepts(s, r, cc, 0);
    StraightSingle(s, Code(s.canon, r, cc), st);
    if st.pos < |s.units| {
      CharAccepts(s, r, cc, GetChar(s, st.pos, |s.units|).0);
    }
  }

  lemma StraightTest(s: Subject, r: Regex, cc: nat, st: State)
    requires IsAssertion(r) && Good(s, st)
    ensures Straight(s, Code(s.canon, r, cc), st) == Matches(s, r, cc, st)
  {
    hide Straight;
    StraightSingle(s, Code(s.canon, r, cc), st);
  }

  lemma {:induction false} StraightConcat(s: Subject, r: Regex, cc: nat, st: State)
    requires r.Concat? && SimpleLength(Code(s.canon, r, cc)) >= 0 && Good(s, st)
    ensures Straight(s, Code(s.canon, r, cc), st) == Matches(s, r, cc, st)
    decreases r, 0
  {
    hide Code, Straight, Matches, SimpleLength, MatchesEach;
    var cb := cc + Groups(r.first);
    var x, y := Code(s.canon, r.first, cc), Code(s.canon, r.second, cb);
    CodeConcat(s.canon, r, cc);
    MatchesConcat(s, r, cc, st);
    SimpleLengthAppend(x, y);
    StraightAppend(s, x, y, st);
    StraightMeaning(s, r.first, cc, st);
    var xs := Matches(s, r.first, cc, st);
    var xss := MatchesEach(s, r.second, cb, st, xs);
    JoinAtMostOne(xs, xss);
    if xs != [] {
      StraightMeaning(s, r.second, cb, xs[0]);
    }
  }

  lemma {:induction false} StraightRepeat(s: Subject, r: Regex, cc: nat, st: State)
    requires r.Repeat? && SimpleLength(Code(s.canon, r, cc)) >= 0 && Good(s, st)
    ensures Straight(s, Code(s.canon, r, cc), st) == Matches(s, r, cc, st)
    decreases r, 0
  {
    hide Code, Matches, RepeatCode, SimpleLength;
    CodeRepeat(s.canon, r, cc);
    SimpleRepeat(Code(s.canon, r.body, cc), cc, Groups(r.body), r.times.min, r.times.max, r.greedy);
    if r.times.max == 0 {
      NoExtraRounds(s, r.body, cc, 0, r.greedy, st);
      ExactlyZero(s, r.body, cc, st);
    } else {
      NoExtraRounds(s, r.body, cc, 1, r.greedy, st);
      ExactlyOnce(s, r.body, cc, st);
      StraightMeaning(s, r.body, cc, st);
    }
  }

  /** Straight-line code comes from patterns without capture groups. */
  lemma {:induction false} SimpleNoGroups(canon: Canon, r: Regex, cc: nat)
    requires SimpleLength(Code(canon, r, cc)) >= 0
    ensures Groups(r) == 0
    decreases r
  {
    if r.Concat? {
      SimpleLengthAppend(Code(canon, r.first, cc), Code(canon, r.second, cc + Groups(r.first)));
      SimpleNoGroups(canon, r.first, cc);
      SimpleNoGroups(canon, r.second, cc + Groups(r.first));
    } else if r.Repeat? {
      SimpleNoGroupsRepeat(canon, r, cc);
    }
  }

  lemma {:induction false} SimpleNoGroupsRepeat(canon: Canon, r: Regex, cc: nat)
    requires r.Repeat? && SimpleLength(Code(canon, r, cc)) >= 0
    ensures Groups(r) == 0
    decreases r, 0
  {
    hide Code, RepeatCode, SimpleLength;
    CodeRepeat(canon, r, cc);
    SimpleRepeat(Code(canon, r.body, cc), cc, Groups(r.body), r.times.min, r.times.max, r.greedy);
    if r.times.max > 0 {
      SimpleNoGroups(canon, r.body, cc);
    }
  }

  lemma SimpleStride(s: Subject, a: Regex, cc: nat)
    requires SimpleLength(Code(s.canon, a, cc)) > 0
    ensures Stride(s, a, cc, SimpleLength(Code(s.canon, a, cc)))
  {
    hide Code, Matches, SimpleLength, Strides;
    forall st | Good(s, st) ensures Strides(s, st, SimpleLength(Code(s.canon, a, cc)), Matches(s, a, cc, st)) {
      SimpleAtom(s, a, cc, st);
    }
  }

  // ---------- the quantifier loop ----------

  /** A simple_greedy_quant for the atom `a`, laid out at `pc`. */
  ghost predicate QuantAt(m: Machine, pc: nat, a: Regex, cc: nat, min: nat, max: nat)
  {
    var x := Code(m.s.canon, a, cc);
    Fetch(m.code, pc) == SimpleGreedyQuant(SizeAll(x) + 1, min, max, SimpleLength(x)) &&
    Loaded(m.code, pc + 17, x) && Fetch(m.code, pc + 17 + SizeAll(x)) == Match &&
    SimpleLength(x) > 0 && max > 0
  }

  /** The state inside the quantifier at `pc` after `q` rounds that led to `st`. */
  function Nested(pc: nat, q: nat, st: State, s1: seq<int>, ks: seq<Choice>): Config
  {
    Run(pc + 17, st, s1, ks, [Frame(pc, q, st.pos, s1)])
  }

  /** The loop runs as many rounds as fit and stops at the first state of the unrestricted descent. */
  lemma {:induction false} QuantLoop(m: Machine, pc: nat, a: Regex, cc: nat, min: nat, max: nat,
                                     q: nat, st: State, s1: seq<int>, ks: seq<Choice>)
    requires QuantAt(m, pc, a, cc, min, max) && Good(m.s, st) && LeftAfter(q, max) != Times(0)
    ensures var ds := UpTo(m.s, a, cc, LeftAfter(q, max), true, st);
            ds != [] &&
            Reaches(m, Nested(pc, q, st, s1, ks), QuantDone(m, Nested(pc, q + |ds| - 1, ds[0], s1, ks)))
    decreases |m.s.units| - st.pos
  {
    hide Fetch, Loaded, Code, Matches, SimpleLength, UpTo, Reaches, QuantDone, Straight, SizeAll, Step, Stride, BackUp;
    var x, n := Code(m.s.canon, a, cc), SimpleLength(Code(m.s.canon, a, cc));
    var c, left := Nested(pc, q, st, s1, ks), LeftAfter(q, max);
    SimpleStride(m.s, a, cc);
    StraightMeaning(m.s, a, cc, st);
    StraightRuns(m, x, pc + 17, st, s1, ks, c.frames);
    UpToStride(m.s, a, cc, n, left, st);
    var xs := Matches(m.s, a, cc, st);
    if xs != [] {
      StrideAdvances(m.s, a, cc, n, st);
      var y := xs[0];
      var d := Run(pc + 17 + SizeAll(x), y, s1, ks, c.frames);
      StepRound(m, pc, a, cc, min, max, q, st, y, s1, ks);
      var e := Step(m, d);
      if LeftAfter(q + 1, max) == Times(0) {
        UpToZero(m.s, a, cc, y);
        ReachesSelf(m, e);
        ReachesStep(m, d, e);
        ReachesTrans(m, c, d, e);
      } else {
        QuantLoop(m, pc, a, cc, min, max, q + 1, y, s1, ks);
        var ds := UpTo(m.s, a, cc, LeftAfter(q + 1, max), true, y);
        var f := QuantDone(m, Nested(pc, q + |ds|, ds[0], s1, ks));
        ReachesStep(m, d, f);
        ReachesTrans(m, c, d, f);
      }
    }
  }

  lemma StepRound(m: Machine, pc: nat, a: Regex, cc: nat, min: nat, max: nat, q: nat, st: State, y: State,
                  s1: seq<int>, ks: seq<Choice>)
    requires QuantAt(m, pc, a, cc, min, max) && InBounds(m.s, y)
    ensures var d := Run(pc + 17 + SizeAll(Code(m.s.canon, a, cc)), y, s1, ks, [Frame(pc, q, st.pos, s1)]);
            Step(m, d) == if LeftAfter(q + 1, max) == Times(0) then QuantDone(m, Nested(pc, q + 1, y, s1, ks))
                          else Nested(pc, q + 1, y, s1, ks)
  {
    hide Fetch, Loaded, Code, SimpleLength, SizeAll, QuantDone;
    var d := Run(pc + 17 + SizeAll(Code(m.s.canon, a, cc)), y, s1, ks, [Frame(pc, q, st.pos, s1)]);
    assert Step(m, d) == RoundDone(m, d);
    assert Front(d.frames) == [];
    var g := Frame(pc, q + 1, y.pos, s1);
    assert Front(d.frames) + [g] == [g];
    QuantDoneSame(m, d.(frames := [g]), Nested(pc, q + 1, y, s1, ks));
  }

  /** Walking back delivers the remaining states of the descent one by one. */
  lemma {:induction false} WalkBack(m: Machine, pc: nat, a: Regex, cc: nat, min: nat, max: nat, k: nat,
                                    ds: seq<State>, s1: seq<int>, ks: seq<Choice>)
    requires QuantAt(m, pc, a, cc, min, max) && 0 < k < |ds|
    requires Chain(m.s, SimpleLength(Code(m.s.canon, a, cc)), ds) && ds[0].pos <= |m.s.units|
    ensures Yields(m, Backtrack(ks + [Choice(KGreedy(k), pc + 1, ds[0], s1)]),
                   pc + 18 + SizeAll(Code(m.s.canon, a, cc)), s1, ks, ds[1..k + 1])
    decreases k
  {
    hide Fetch, Loaded, Code, SimpleLength, Reaches, SizeAll, Step, BackUp;
    var n, exit := SimpleLength(Code(m.s.canon, a, cc)), pc + 18 + SizeAll(Code(m.s.canon, a, cc));
    var c := Backtrack(ks + [Choice(KGreedy(k), pc + 1, ds[0], s1)]);
    StepBack(m, pc, a, cc, min, max, k, ds[0], ds[1], s1, ks);
    var more := if k == 1 then [] else [Choice(KGreedy(k - 1), pc + 1, ds[1], s1)];
    assert k == 1 ==> ks + more == ks;
    var d := Run(exit, ds[1], s1, ks + more, []);
    ReachesSelf(m, d);
    ReachesStep(m, c, d);
    ReachesSelf(m, Backtrack(ks));
    var es := ds[1..k + 1];
    DropFirst(ds, k);
    if k > 1 {
      ChainTail(m.s, n, ds);
      WalkBack(m, pc, a, cc, min, max, k - 1, ds[1..], s1, ks);
    }
    assert YieldsVia(m, c, exit, s1, ks, es, more);
  }

  lemma DropFirst(ds: seq<State>, k: nat)
    requires 0 < k < |ds|
    ensures ds[1..k + 1][0] == ds[1] && ds[1..k + 1][1..] == ds[1..][1..k]
  {
    assert ds[1..k + 1][1..] == ds[2..k + 1];
    assert ds[1..][1..k] == ds[2..k + 1];
  }

  lemma ChainTail(s: Subject, n: nat, ds: seq<State>)
    requires ds != [] && Chain(s, n, ds)
    ensures Chain(s, n, ds[1..])
  {
    hide BackUp;
    var es := ds[1..];
    forall i | 0 <= i < |es| - 1
      ensures es[i].caps == es[i + 1].caps && BackUp(s, es[i].pos, n) == es[i + 1].pos
    {
      assert es[i] == ds[i + 1] && es[i + 1] == ds[i + 2];
    }
  }

  lemma StepBack(m: Machine, pc: nat, a: Regex, cc: nat, min: nat, max: nat, k: nat, x: State, y: State,
                 s1: seq<int>, ks: seq<Choice>)
    requires QuantAt(m, pc, a, cc, min, max) && k > 0 && x.pos <= |m.s.units|
    requires x.caps == y.caps && BackUp(m.s, x.pos, SimpleLength(Code(m.s.canon, a, cc))) == y.pos
    ensures Step(m, Backtrack(ks + [Choice(KGreedy(k), pc + 1, x, s1)])) ==
            Run(pc + 18 + SizeAll(Code(m.s.canon, a, cc)), y, s1,
                if k == 1 then ks else ks + [Choice(KGreedy(k - 1), pc + 1, y, s1)], [])
  {
    hide Fetch, Loaded, Code, SimpleLength, SizeAll, BackUp;
    LastFront(ks, Choice(KGreedy(k), pc + 1, x, s1));
  }

  // ---------- the whole instruction ----------

  lemma QuantExit(m: Machine, pc: nat, a: Regex, cc: nat, min: nat, max: nat, q: nat, st: State,
                  s1: seq<int>, ks: seq<Choice>)
    requires QuantAt(m, pc, a, cc, min, max)
    ensures QuantDone(m, Nested(pc, q, st, s1, ks)) ==
            if q < min then Backtrack(ks)
            else Run(pc + 18 + SizeAll(Code(m.s.canon, a, cc)), st, s1,
                     if q == min then ks else ks + [Choice(KGreedy(q - min), pc + 1, st, s1)], [])
  {
    hide Fetch, Loaded, Code, SimpleLength, SizeAll;
    assert Front(Nested(pc, q, st, s1, ks).frames) == [];
  }

  lemma QuantStart(m: Machine, pc: nat, a: Regex, cc: nat, min: nat, max: nat, st: State, s1: seq<int>, ks: seq<Choice>)
    requires QuantAt(m, pc, a, cc, min, max) && InBounds(m.s, st)
    ensures Step(m, Run(pc, st, s1, ks, [])) == Nested(pc, 0, st, s1, ks)
  {
    hide Fetch, Loaded, Code, SimpleLength, SizeAll;
    assert [] + [Frame(pc, 0, st.pos, s1)] == [Frame(pc, 0, st.pos, s1)];
  }

  /** simple_greedy_quant refines the general loop: same states, same order. */
  lemma SimpleQuantDoes(m: Machine, r: Regex, cc: nat, pc: nat, st: State, s1: seq<int>)
    requires r.Repeat? && r.greedy && Good(m.s, st)
    requires QuantAt(m, pc, r.body, cc, r.times.min, r.times.max)
    ensures Does(m, pc, st, s1, pc + 18 + SizeAll(Code(m.s.canon, r.body, cc)), s1, Matches(m.s, r, cc, st))
  {
    hide Yields, Matches, Good, QuantAt;
    forall ks ensures Yields(m, Run(pc, st, s1, ks, []), pc + 18 + SizeAll(Code(m.s.canon, r.body, cc)), s1, ks,
                             Matches(m.s, r, cc, st)) {
      QuantYields(m, r, cc, pc, st, s1, ks);
    }
  }

  lemma QuantYields(m: Machine, r: Regex, cc: nat, pc: nat, st: State, s1: seq<int>, ks: seq<Choice>)
    requires r.Repeat? && r.greedy && Good(m.s, st)
    requires QuantAt(m, pc, r.body, cc, r.times.min, r.times.max)
    ensures Yields(m, Run(pc, st, s1, ks, []), pc + 18 + SizeAll(Code(m.s.canon, r.body, cc)), s1, ks,
                   Matches(m.s, r, cc, st))
  {
    hide Fetch, Loaded, Code, Matches, SimpleLength, UpTo, Reaches, QuantDone, SizeAll, Step, Stride, BackUp;
    var a, min, max, n := r.body, r.times.min, r.times.max, SimpleLength(Code(m.s.canon, r.body, cc));
    var c := Run(pc, st, s1, ks, []);
    var ds := UpTo(m.s, a, cc, LeftAfter(0, max), true, st);
    SimpleStride(m.s, a, cc);
    SimpleNoGroups(m.s.canon, a, cc);
    QuantMeaning(m.s, r, cc, n, st);
    UpToChain(m.s, a, cc, n, LeftAfter(0, max), st);
    QuantStart(m, pc, a, cc, min, max, st, s1, ks);
    QuantLoop(m, pc, a, cc, min, max, 0, st, s1, ks);
    var q := |ds| - 1;
    var e := QuantDone(m, Nested(pc, q, ds[0], s1, ks));
    ReachesStep(m, c, e);
    QuantExit(m, pc, a, cc, min, max, q, ds[0], s1, ks);
    if q >= min {
      QuantDelivers(m, pc, a, cc, min, max, ds, s1, ks, c);
    }
  }

  lemma QuantDelivers(m: Machine, pc: nat, a: Regex, cc: nat, min: nat, max: nat, ds: seq<State>, s1: seq<int>,
                      ks: seq<Choice>, c: Config)
    requires QuantAt(m, pc, a, cc, min, max) && |ds| > min
    requires Chain(m.s, SimpleLength(Code(m.s.canon, a, cc)), ds) && ds[0].pos <= |m.s.units|
    requires var q := |ds| - 1;
             Reaches(m, c, Run(pc + 18 + SizeAll(Code(m.s.canon, a, cc)), ds[0], s1,
                               if q == min then ks else ks + [Choice(KGreedy(q - min), pc + 1, ds[0], s1)], []))
    ensures Yields(m, c, pc + 18 + SizeAll(Code(m.s.canon, a, cc)), s1, ks, ds[..|ds| - min])
  {
    hide Fetch, Loaded, Code, SimpleLength, Reaches, QuantDone, SizeAll, Step, BackUp;
    var exit := pc + 18 + SizeAll(Code(m.s.canon, a, cc));
    var k, es := |ds| - 1 - min, ds[..|ds| - min];
    var more := if k == 0 then [] else [Choice(KGreedy(k), pc + 1, ds[0], s1)];
    assert k == 0 ==> ks + more == ks;
    assert es[0] == ds[0] && es[1..] == ds[1..k + 1];
    ReachesSelf(m, Backtrack(ks));
    if k > 0 {
      WalkBack(m, pc, a, cc, min, max, k, ds, s1, ks);
    }
    assert YieldsVia(m, c, exit, s1, ks, es, more);
  }
}
