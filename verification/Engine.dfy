// lre_exec on a compiled pattern: the run terminates, and its answer is the leftmost match.
module Engine {
  import opened Bytecode
  import opened Subjects
  import opened Regex
  import opened Matcher
  import opened Simulation
  import opened CodeGen
  import opened LeafCode
  import opened StraightLine
  import opened Equations
  import opened Loops
  import opened CodeCorrect

  const HEADER_LEN := 8

  // ---------- the program ----------

  /** Group 0 around the pattern; unless the pattern is sticky, `.*?` in front of it. */
  function Whole(r: Regex, sticky: bool): Regex
  {
    if sticky then Group(r) else Concat(Repeat(AnyChar(true), MinMax(0, INT32_MAX), false), Group(r))
  }

  /** What lre_compile emits behind the header. */
  function ProgramCode(canon: Canon, r: Regex, sticky: bool): seq<Instr>
  {
    (if sticky then [] else [Split(false, 6), Any, Goto(-11)]) +
    ([SaveStart(0)] + (Code(canon, r, 1) + [SaveEnd(0), Match]))
  }

  /** The prefix is the compiled form of a lazy any-character loop, so the program is compiled code throughout. */
  lemma ProgramIsCode(canon: Canon, r: Regex, sticky: bool)
    ensures ProgramCode(canon, r, sticky) == Code(canon, Whole(r, sticky), 0) + [Match]
  {
    var x := Code(canon, r, 1);
    GroupPart(canon, r);
    if !sticky {
      var any := Repeat(AnyChar(true), MinMax(0, INT32_MAX), false);
      PrefixCode(canon);
      CodeConcat(canon, Whole(r, false), 0);
      var p, g := Code(canon, any, 0), Code(canon, Group(r), 0);
      assert (p + g) + [Match] == p + (g + [Match]);
    } else {
      var t := [SaveStart(0)] + (x + [SaveEnd(0), Match]);
      assert [] + t == t;
    }
  }

  lemma GroupPart(canon: Canon, r: Regex)
    ensures Code(canon, Group(r), 0) + [Match] == [SaveStart(0)] + (Code(canon, r, 1) + [SaveEnd(0), Match])
  {
    hide Code;
    CodeGroup(canon, Group(r), 0);
    var x := Code(canon, r, 1);
    assert [SaveEnd(0), Match] == [SaveEnd(0)] + [Match];
  }

  lemma PrefixCode(canon: Canon)
    ensures Code(canon, Repeat(AnyChar(true), MinMax(0, INT32_MAX), false), 0) == [Split(false, 6), Any, Goto(-11)]
  {
    var any := Repeat(AnyChar(true), MinMax(0, INT32_MAX), false);
    var a := Code(canon, AnyChar(true), 0);
    assert a == [Any] && a[1..] == [];
    assert SizeAll(a) == 1 && Scan(a) == Moving;
    var code := Code(canon, any, 0);
    assert code == [] + ([Split(false, 6)] + (a + [Goto(-11)]));
    assert code == [Split(false, 6), Any, Goto(-11)];
  }

  lemma WholeGroups(r: Regex, sticky: bool)
    ensures Groups(Whole(r, sticky)) == 1 + Groups(r)
  {
    var any := Repeat(AnyChar(true), MinMax(0, INT32_MAX), false);
    assert Groups(any) == Groups(AnyChar(true)) == 0;
  }

  // ---------- what a search should find ----------

  function NoCaps(n: nat): seq<int> { seq(2 * n, _ => -1) }

  function Start(p: nat, n: nat): State { State(p, NoCaps(n)) }

  /** The captures of the preferred match of `r` at the first position, from `p` on, where there is one. */
  function Leftmost(s: Subject, r: Regex, n: nat, p: nat): (won: Option<seq<int>>)
    requires Aligned(s, p)
    decreases |s.units| - p
  {
    var xs := Matches(s, Group(r), 0, Start(p, n));
    if xs != [] then Some(xs[0].caps)
    else if p == |s.units| then None
    else NextAligned(s, p); Leftmost(s, r, n, GetChar(s, p, |s.units|).1)
  }

  function HereOnly(s: Subject, r: Regex, n: nat, p: nat): Option<seq<int>>
    requires Aligned(s, p)
  {
    var xs := Matches(s, Group(r), 0, Start(p, n));
    if xs != [] then Some(xs[0].caps) else None
  }

  function First(xs: seq<State>): Option<seq<int>> { if xs == [] then None else Some(xs[0].caps) }

  lemma FirstAppend(xs: seq<State>, ys: seq<State>)
    ensures First(xs + ys) == if xs == [] then First(ys) else First(xs)
  {
  }

  lemma {:induction false} JoinAppend(xss: seq<seq<State>>, yss: seq<seq<State>>)
    ensures Join(xss + yss) == Join(xss) + Join(yss)
  {
    if xss == [] {
      assert xss + yss == yss;
    } else {
      assert (xss + yss)[0] == xss[0] && (xss + yss)[1..] == xss[1..] + yss;
      JoinAppend(xss[1..], yss);
    }
  }

  /** One turn of the lazy prefix: stay here first, then one character further on. */
  lemma SkipOne(s: Subject, st: State)
    requires Good(s, st)
    ensures st.pos == |s.units| ==> UpTo(s, AnyChar(true), 0, Unlimited, false, st) == [st]
    ensures st.pos < |s.units| ==>
      var y := st.(pos := GetChar(s, st.pos, |s.units|).1);
      Good(s, y) && y.pos > st.pos &&
      UpTo(s, AnyChar(true), 0, Unlimited, false, st) == [st] + UpTo(s, AnyChar(true), 0, Unlimited, false, y)
  {
    hide UpTo, Join;
    var xs := Matches(s, AnyChar(true), 0, st);
    UpToRound(s, AnyChar(true), 0, Unlimited, false, st);
    var xss := RoundEach(s, AnyChar(true), 0, Unlimited, false, st, xs);
    JoinAtMostOne(xs, xss);
    if st.pos < |s.units| {
      NextAligned(s, st.pos);
    } else {
      assert [st] + [] == [st];
    }
  }

  /** The first result behind the lazy prefix is the leftmost match. */
  lemma {:induction false} SkipSearches(s: Subject, r: Regex, n: nat, p: nat, st: State)
    requires Aligned(s, p) && st == Start(p, n)
    requires Good(s, st)
    ensures AllFollow(s, st, UpTo(s, AnyChar(true), 0, Unlimited, false, st))
    ensures First(Join(MatchesEach(s, Group(r), 0, st, UpTo(s, AnyChar(true), 0, Unlimited, false, st)))) ==
            Leftmost(s, r, n, p)
    decreases |s.units| - p
  {
    hide UpTo, Matches, Join;
    SkipOne(s, st);
    var xs := UpTo(s, AnyChar(true), 0, Unlimited, false, st);
    var here := Matches(s, Group(r), 0, st);
    if p == |s.units| {
      var xss := MatchesEach(s, Group(r), 0, st, xs);
      assert xss == [here];
      JoinOne(here);
    } else {
      var q := GetChar(s, p, |s.units|).1;
      var y := st.(pos := q);
      NextAligned(s, p);
      SkipSearches(s, r, n, q, y);
      var ys := UpTo(s, AnyChar(true), 0, Unlimited, false, y);
      var yss := MatchesEach(s, Group(r), 0, y, ys);
      assert MatchesEach(s, Group(r), 0, st, xs) == [here] + yss;
      JoinAppend([here], yss);
      JoinOne(here);
      FirstAppend(here, Join(yss));
    }
  }

  lemma StartGood(s: Subject, p: nat, n: nat)
    requires Aligned(s, p)
    ensures Good(s, Start(p, n))
  {
  }

  /** The preferred match of the whole program is what the search should find. */
  lemma WholeSearches(s: Subject, r: Regex, sticky: bool, n: nat, p: nat)
    requires Aligned(s, p) && Good(s, Start(p, n))
    ensures First(Matches(s, Whole(r, sticky), 0, Start(p, n))) ==
            if sticky then HereOnly(s, r, n, p) else Leftmost(s, r, n, p)
  {
    hide UpTo, Matches, Join, Exactly;
    if !sticky {
      var st := Start(p, n);
      var any := Repeat(AnyChar(true), MinMax(0, INT32_MAX), false);
      MatchesConcat(s, Whole(r, false), 0, st);
      SkippableMatches(s, any, 0, st);
      SkipSearches(s, r, n, p, st);
    }
  }

  // ---------- running it ----------

  /** Where lre_exec starts: the greatest position up to `index` that is not inside a surrogate pair. */
  predicate StartsAt(s: Subject, index: nat, p: nat)
  {
    p <= index && Aligned(s, p) && forall q | p < q <= index :: !Aligned(s, q)
  }

  /** There is one such position: the index itself, or the one before it when the index splits a pair. */
  lemma StartMeaning(s: Subject, index: nat, p: nat)
    requires index <= |s.units|
    ensures StartsAt(s, index, p) <==> p == if Aligned(s, index) then index else index - 1
  {
    if !Aligned(s, index) {
      assert Aligned(s, index - 1);
    }
  }

  function Initial(p: nat, n: nat): Config { Run(HEADER_LEN, Start(p, n), [], [], []) }

  lemma RunsToEnd(m: Machine, pc: nat, st: State, end: int, xs: seq<State>)
    requires Does(m, pc, st, [], end, [], xs) && Fetch(m.code, end) == Match
    requires forall i :: 0 <= i < |xs| ==> InBounds(m.s, xs[i])
    ensures Reaches(m, Run(pc, st, [], [], []), Done(First(xs)))
  {
    hide Step, Reaches;
    var c := Run(pc, st, [], [], []);
    assert Yields(m, c, end, [], [], xs);
    if xs == [] {
      StepDone(m, None);
      ReachesSelf(m, Done(None));
      ReachesStep(m, Backtrack([]), Done(None));
      ReachesTrans(m, c, Backtrack([]), Done(None));
    } else {
      var more :| YieldsVia(m, c, end, [], [], xs, more);
      var caps, d := xs[0].caps, Run(end, xs[0], [], [] + more, []);
      StepMatch(m, end, xs[0], [], [] + more);
      UnwindPlain(m, caps, [], more);
      ReachesStep(m, d, Unwind(Some(caps), []));
      StepDone(m, Some(caps));
      ReachesSelf(m, Done(Some(caps)));
      ReachesStep(m, Unwind(Some(caps), []), Done(Some(caps)));
      ReachesTrans(m, c, d, Unwind(Some(caps), []));
      ReachesTrans(m, c, Unwind(Some(caps), []), Done(Some(caps)));
    }
  }

  lemma StepDone(m: Machine, won: Option<seq<int>>)
    ensures Step(m, Unwind(won, [])) == Done(won)
  {
  }

  /** Main theorem: a compiled pattern, run from any index of any text, halts with the captures of the
      preferred match at the first position that has one, or reports that there is none. */
  lemma CompiledRuns(m: Machine, r: Regex, sticky: bool, n: nat, index: nat, p: nat)
    requires index <= |m.s.units| && StartsAt(m.s, index, p) && n == 1 + Groups(r)
    requires Loaded(m.code, HEADER_LEN, ProgramCode(m.s.canon, r, sticky))
    ensures Reaches(m, Initial(p, n), Done(if sticky then HereOnly(m.s, r, n, p) else Leftmost(m.s, r, n, p)))
  {
    hide Loaded, Code, Fetch, Matches, Does, Leftmost, SizeAll, Reaches;
    var whole, st := Whole(r, sticky), Start(p, n);
    StartGood(m.s, p, n);
    ProgramIsCode(m.s.canon, r, sticky);
    LastOne(m.code, HEADER_LEN, Code(m.s.canon, whole, 0), Match);
    WholeGroups(r, sticky);
    assert Ready(m, whole, 0, st);
    CodeDoes(m, whole, 0, HEADER_LEN, st, []);
    RunsToEnd(m, HEADER_LEN, st, HEADER_LEN + CodeSize(m, whole, 0), Matches(m.s, whole, 0, st));
    WholeSearches(m.s, r, sticky, n, p);
  }
}
