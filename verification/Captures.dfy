// Which captures a match changes, and what the captures of a search say.
module Captures {
  import opened Bytecode
  import opened Subjects
  import opened Regex
  import opened Equations
  import opened Engine

  /** Only the captures of the groups lo..hi-1 differ. */
  predicate Keeps(st: State, x: State, lo: nat, hi: nat)
  {
    |x.caps| == |st.caps| && forall k :: 0 <= k < |st.caps| && !(2 * lo <= k < 2 * hi) ==> x.caps[k] == st.caps[k]
  }

  predicate AllKeep(st: State, xs: seq<State>, lo: nat, hi: nat)
  {
    forall i :: 0 <= i < |xs| ==> Keeps(st, xs[i], lo, hi)
  }

  /** Resetting forgets both ends of the groups first..last and nothing else. */
  lemma ResetMeaning(st: State, first: nat, last: int, n: nat)
    requires 2 * n + 1 < |st.caps|
    ensures var x := ResetCaps(st, first, last);
            x.pos == st.pos && |x.caps| == |st.caps| &&
            (x.caps[2 * n], x.caps[2 * n + 1]) == if first <= n <= last then (-1, -1) else (st.caps[2 * n], st.caps[2 * n + 1])
  {
  }

  lemma ResetKeeps(st: State, lo: nat, hi: nat)
    ensures Keeps(st, ResetCaps(st, lo, hi - 1), lo, hi)
  {
  }

  lemma KeepsTrans(st: State, x: State, y: State, lo: nat, mid: nat, mid': nat, hi: nat)
    requires lo <= mid' && mid <= hi && lo <= mid <= hi && lo <= mid' <= hi && Keeps(st, x, lo, mid) && Keeps(x, y, mid', hi)
    ensures Keeps(st, y, lo, hi)
  {
  }

  lemma {:induction false} JoinKeep(st: State, xss: seq<seq<State>>, lo: nat, hi: nat)
    requires forall i :: 0 <= i < |xss| ==> AllKeep(st, xss[i], lo, hi)
    ensures AllKeep(st, Join(xss), lo, hi)
  {
    if xss != [] {
      JoinKeep(st, xss[1..], lo, hi);
      assert AllKeep(st, xss[0], lo, hi);
    }
  }

  lemma WiderKeep(st: State, xs: seq<State>, lo: nat, hi: nat, lo': nat, hi': nat)
    requires AllKeep(st, xs, lo, hi) && lo' <= lo && hi <= hi'
    ensures AllKeep(st, xs, lo', hi')
  {
  }

  /** Matches of `b` behind matches of `a`. */
  lemma EachKeep(st: State, xs: seq<State>, xss: seq<seq<State>>, lo: nat, hi: nat)
    requires AllKeep(st, xs, lo, hi) && |xss| == |xs| && forall i :: 0 <= i < |xs| ==> AllKeep(xs[i], xss[i], lo, hi)
    ensures AllKeep(st, Join(xss), lo, hi)
  {
    hide Join;
    forall i | 0 <= i < |xss| ensures AllKeep(st, xss[i], lo, hi) {
      assert Keeps(st, xs[i], lo, hi) && AllKeep(xs[i], xss[i], lo, hi);
    }
    JoinKeep(st, xss, lo, hi);
  }

  /** A match changes no captures but those of the groups of its own pattern. */
  lemma {:induction false} OwnCaptures(s: Subject, r: Regex, cc: nat, st: State)
    requires Good(s, st)
    ensures AllKeep(st, Matches(s, r, cc, st), cc, cc + Groups(r))
    decreases r, 1
  {
    hide Matches, AllKeep;
    match r
    case Concat(a, b) => ConcatCaptures(s, r, cc, st);
    case Alternate(a, b) =>
      MatchesAlternate(s, r, cc, st);
      OwnCaptures(s, a, cc, st);
      OwnCaptures(s, b, cc + Groups(a), st);
      WiderKeep(st, Matches(s, a, cc, st), cc, cc + Groups(a), cc, cc + Groups(r));
      WiderKeep(st, Matches(s, b, cc + Groups(a), st), cc + Groups(a), cc + Groups(r), cc, cc + Groups(r));
      AppendKeep(st, Matches(s, a, cc, st), Matches(s, b, cc + Groups(a), st), cc, cc + Groups(r));
    case Group(a) => GroupCaptures(s, r, cc, st);
    case Look(_, a) =>
      MatchesLook(s, r, cc, st);
      OwnCaptures(s, a, cc, st);
      LookKeep(r.negated, st, Matches(s, a, cc, st), cc, cc + Groups(r));
    case Repeat(a, _, _) => RepeatCaptures(s, r, cc, st);
    case _ => LeafCaptures(s, r, cc, st);
  }

  lemma AppendKeep(st: State, xs: seq<State>, ys: seq<State>, lo: nat, hi: nat)
    requires AllKeep(st, xs, lo, hi) && AllKeep(st, ys, lo, hi)
    ensures AllKeep(st, xs + ys, lo, hi)
  {
  }

  lemma LookKeep(negated: bool, st: State, xs: seq<State>, lo: nat, hi: nat)
    requires AllKeep(st, xs, lo, hi)
    ensures AllKeep(st, LookResult(negated, st, xs), lo, hi)
  {
    if xs != [] {
      assert Keeps(st, xs[0], lo, hi);
    }
  }

  lemma LeafCaptures(s: Subject, r: Regex, cc: nat, st: State)
    requires Good(s, st) && (r.Empty? || IsChar(r) || IsAssertion(r) || r.Backref?)
    ensures AllKeep(st, Matches(s, r, cc, st), cc, cc + Groups(r))
  {
    hide Accepts, Holds, RepeatEnd, AllFollow;
  }

  lemma {:induction false} ConcatCaptures(s: Subject, r: Regex, cc: nat, st: State)
    requires Good(s, st) && r.Concat?
    ensures AllKeep(st, Matches(s, r, cc, st), cc, cc + Groups(r))
    decreases r, 0
  {
    hide Matches, AllKeep, Join, Groups, AllFollow;
    var a, b, mid, hi := r.first, r.second, cc + Groups(r.first), cc + Groups(r);
    ConcatGroups(r);
    MatchesConcat(s, r, cc, st);
    var xs := Matches(s, a, cc, st);
    OwnCaptures(s, a, cc, st);
    WiderKeep(st, xs, cc, mid, cc, hi);
    var xss := MatchesEach(s, b, mid, st, xs);
    forall i | 0 <= i < |xs|
      ensures AllKeep(xs[i], xss[i], cc, hi)
    {
      assert AllFollow(s, st, xs);
      GoodAt(s, st, xs, i);
      OwnCaptures(s, b, mid, xs[i]);
      WiderKeep(xs[i], xss[i], mid, hi, cc, hi);
    }
    EachKeep(st, xs, xss, cc, hi);
  }

  lemma ConcatGroups(r: Regex)
    requires r.Concat?
    ensures Groups(r) == Groups(r.first) + Groups(r.second)
  {
  }

  lemma GoodAt(s: Subject, st: State, xs: seq<State>, i: nat)
    requires AllFollow(s, st, xs) && i < |xs|
    ensures Good(s, xs[i])
  {
  }

  /** A group captures where it starts and where it ends. */
  lemma {:induction false} GroupCaptures(s: Subject, r: Regex, cc: nat, st: State)
    requires Good(s, st) && r.Group?
    ensures AllKeep(st, Matches(s, r, cc, st), cc, cc + Groups(r))
    ensures forall i :: 0 <= i < |Matches(s, r, cc, st)| && 2 * cc + 1 < |st.caps| ==>
              var x := Matches(s, r, cc, st)[i]; x.caps[2 * cc] == st.pos && x.caps[2 * cc + 1] == x.pos
    decreases r, 0
  {
    hide Matches, AllKeep;
    SetCapFollows(s, st, 2 * cc);
    MatchesGroup(s, r, cc, st);
    var st1 := SetCap(st, 2 * cc, st.pos);
    var xs, ys := Matches(s, r.body, cc + 1, st1), Matches(s, r, cc, st);
    OwnCaptures(s, r.body, cc + 1, st1);
    forall i | 0 <= i < |xs|
      ensures Keeps(st, ys[i], cc, cc + Groups(r))
      ensures 2 * cc + 1 < |st.caps| ==> ys[i].caps[2 * cc] == st.pos && ys[i].caps[2 * cc + 1] == ys[i].pos
    {
      KeepOf(st1, xs, i, cc + 1, cc + 1 + Groups(r.body));
    }
    KeepAll(st, ys, cc, cc + Groups(r));
  }

  lemma KeepOf(st: State, xs: seq<State>, i: nat, lo: nat, hi: nat)
    requires AllKeep(st, xs, lo, hi) && i < |xs|
    ensures Keeps(st, xs[i], lo, hi)
  {
  }

  lemma KeepAll(st: State, xs: seq<State>, lo: nat, hi: nat)
    requires forall i :: 0 <= i < |xs| ==> Keeps(st, xs[i], lo, hi)
    ensures AllKeep(st, xs, lo, hi)
  {
  }

  lemma NoRounds(s: Subject, a: Regex, cc: nat, st: State)
    requires Good(s, st)
    ensures Exactly(s, a, cc, 0, st) == [st]
  {
  }

  lemma NoMoreRounds(s: Subject, a: Regex, cc: nat, greedy: bool, st: State)
    requires Good(s, st)
    ensures UpTo(s, a, cc, Times(0), greedy, st) == [st]
  {
  }

  lemma {:induction false} ExactlyCaptures(s: Subject, a: Regex, cc: nat, n: nat, st: State)
    requires Good(s, st)
    ensures AllKeep(st, Exactly(s, a, cc, n, st), cc, cc + Groups(a))
    decreases a, 2, n
  {
    hide Matches, AllKeep, Exactly;
    if n == 0 {
      NoRounds(s, a, cc, st);
      KeepAll(st, [st], cc, cc + Groups(a));
    } else {
      ExactlyRound(s, a, cc, n, st);
      var xs := Matches(s, a, cc, st);
      OwnCaptures(s, a, cc, st);
      var xss := ExactlyEach(s, a, cc, n - 1, st, xs);
      forall i | 0 <= i < |xs| ensures AllKeep(xs[i], xss[i], cc, cc + Groups(a)) {
        ExactlyCaptures(s, a, cc, n - 1, xs[i]);
      }
      EachKeep(st, xs, xss, cc, cc + Groups(a));
    }
  }

  lemma {:induction false} UpToCaptures(s: Subject, a: Regex, cc: nat, left: Count, greedy: bool, st: State)
    requires Good(s, st)
    ensures AllKeep(st, UpTo(s, a, cc, left, greedy, st), cc, cc + Groups(a))
    decreases a, 2, |s.units| - st.pos
  {
    hide Matches, AllKeep, UpTo, Join;
    KeepAll(st, [st], cc, cc + Groups(a));
    if left == Times(0) {
      NoMoreRounds(s, a, cc, greedy, st);
    } else {
      UpToRound(s, a, cc, left, greedy, st);
      var xs := Matches(s, a, cc, st);
      OwnCaptures(s, a, cc, st);
      var xss := RoundEach(s, a, cc, Less(left), greedy, st, xs);
      forall i | 0 <= i < |xs| ensures AllKeep(xs[i], xss[i], cc, cc + Groups(a)) {
        if xs[i].pos == st.pos {
          KeepAll(xs[i], [], cc, cc + Groups(a));
        } else {
          UpToCaptures(s, a, cc, Less(left), greedy, xs[i]);
        }
      }
      EachKeep(st, xs, xss, cc, cc + Groups(a));
      AppendKeep(st, Join(xss), [st], cc, cc + Groups(a));
      AppendKeep(st, [st], Join(xss), cc, cc + Groups(a));
    }
  }

  lemma {:induction false} RepeatCaptures(s: Subject, r: Regex, cc: nat, st: State)
    requires Good(s, st) && r.Repeat?
    ensures AllKeep(st, Matches(s, r, cc, st), cc, cc + Groups(r))
    decreases r, 0
  {
    hide Matches, AllKeep, UpTo, Exactly, EnterRepeat;
    var a, hi, st0 := r.body, cc + Groups(r), EnterRepeat(r, cc, st);
    EnterFollows(s, r, cc, st);
    MatchesRepeat(s, r, cc, st);
    EnterKeeps(r, cc, st);
    var xs := Exactly(s, a, cc, r.times.min, st0);
    ExactlyCaptures(s, a, cc, r.times.min, st0);
    forall i | 0 <= i < |xs| ensures Keeps(st, xs[i], cc, hi) {
      KeepOf(st0, xs, i, cc, hi);
    }
    KeepAll(st, xs, cc, hi);
    var xss := UpToEach(s, a, cc, Extra(r.times.min, r.times.max), r.greedy, st, xs);
    forall i | 0 <= i < |xs| ensures AllKeep(xs[i], xss[i], cc, hi) {
      UpToCaptures(s, a, cc, Extra(r.times.min, r.times.max), r.greedy, xs[i]);
    }
    EachKeep(st, xs, xss, cc, hi);
  }

  lemma EnterKeeps(r: Regex, cc: nat, st: State)
    requires r.Repeat?
    ensures Keeps(st, EnterRepeat(r, cc, st), cc, cc + Groups(r))
  {
    ResetKeeps(st, cc, cc + Groups(r));
  }

  // ---------- the answer of a search ----------

  /** At `q`, with no group set. */
  predicate Fresh(st: State, q: nat, n: nat)
  {
    st.pos == q && |st.caps| == 2 * n && forall k :: 0 <= k < 2 * n ==> st.caps[k] == -1
  }

  lemma StartIsFresh(st: State, q: nat, n: nat)
    ensures Fresh(st, q, n) <==> st == Start(q, n)
  {
  }

  ghost predicate MatchesAt(s: Subject, r: Regex, n: nat, q: nat)
    requires Aligned(s, q)
  {
    exists st :: Fresh(st, q, n) && Matches(s, Group(r), 0, st) != []
  }

  /** The captures of the preferred match that starts at `q`. */
  ghost predicate Preferred(s: Subject, r: Regex, n: nat, q: nat, caps: seq<int>)
    requires Aligned(s, q)
  {
    exists st :: Fresh(st, q, n) && Matches(s, Group(r), 0, st) != [] && Matches(s, Group(r), 0, st)[0].caps == caps
  }

  lemma AtStart(s: Subject, r: Regex, n: nat, q: nat)
    requires Aligned(s, q) && Good(s, Start(q, n)) && n > 0
    ensures var xs := Matches(s, Group(r), 0, Start(q, n));
            (MatchesAt(s, r, n, q) <==> xs != []) &&
            (xs != [] ==> Preferred(s, r, n, q, xs[0].caps) && |xs[0].caps| == 2 * n && xs[0].caps[0] == q && q <= xs[0].caps[1] <= |s.units|)
  {
    hide Matches;
    StartIsFresh(Start(q, n), q, n);
    GroupCaptures(s, Group(r), 0, Start(q, n));
    var xs := Matches(s, Group(r), 0, Start(q, n));
    if MatchesAt(s, r, n, q) {
      var st :| Fresh(st, q, n) && Matches(s, Group(r), 0, st) != [];
      StartIsFresh(st, q, n);
    }
    if xs != [] {
      assert Follows(s, Start(q, n), xs[0]);
    }
  }

  /** What a search from `p` answers: the captures of the preferred match at the first position that has one; capture 0 is
      that position. */
  lemma {:induction false} LeftmostMeaning(s: Subject, r: Regex, n: nat, p: nat)
    requires Aligned(s, p) && n > 0
    ensures match Leftmost(s, r, n, p)
            case None => forall q: nat | p <= q && Aligned(s, q) :: !MatchesAt(s, r, n, q)
            case Some(caps) =>
              |caps| == 2 * n && p <= caps[0] <= caps[1] <= |s.units| && Aligned(s, caps[0]) && Preferred(s, r, n, caps[0], caps) &&
              forall q: nat | p <= q < caps[0] && Aligned(s, q) :: !MatchesAt(s, r, n, q)
    decreases |s.units| - p
  {
    hide Matches, MatchesAt, Preferred;
    AtStart(s, r, n, p);
    if Matches(s, Group(r), 0, Start(p, n)) == [] && p < |s.units| {
      var next := GetChar(s, p, |s.units|).1;
      NextAligned(s, p);
      LeftmostMeaning(s, r, n, next);
      forall q: nat | p < q < next ensures !Aligned(s, q) {
      }
    }
  }

  lemma HereMeaning(s: Subject, r: Regex, n: nat, p: nat)
    requires Aligned(s, p) && n > 0
    ensures match HereOnly(s, r, n, p)
            case None => !MatchesAt(s, r, n, p)
            case Some(caps) => |caps| == 2 * n && p == caps[0] <= caps[1] <= |s.units| && Preferred(s, r, n, p, caps)
  {
    hide Matches, MatchesAt, Preferred;
    AtStart(s, r, n, p);
  }
}
