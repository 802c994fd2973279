// Parsed patterns and what they match: the ordered list of all the states a
// backtracking matcher may end in, the preferred one first.
module Regex {
  import opened Bytecode
  import opened Subjects
  import opened PointSets

  /** A character range whose points are 32-bit numbers. */
  predicate ValidPoints(points: seq<int>)
  {
    |points| % 2 == 0 && Sorted(points) && forall i :: 0 <= i < |points| ==> 0 <= points[i] <= UINT32_MAX
  }

  type Points = points: seq<int> | ValidPoints(points) witness []

  type GroupIndex = n: int | 0 <= n < 256

  datatype MinMax = MinMax(min: nat, max: nat)

  /** {min,max}; parse_digits saturates both numbers at INT32_MAX. */
  type Quantity = q: MinMax | q.min <= q.max <= INT32_MAX witness MinMax(0, 0)

  /** A forward pattern. Literals carry the character as written; groups are numbered from left to right. */
  datatype Regex =
    | Empty
    | Literal(c: CodePoint, icase: bool)
    | AnyChar(dotAll: bool)
    | Class(points: Points, icase: bool)
    | Begin(multi: bool)
    | End(multi: bool)
    | Boundary(negated: bool, icase: bool)
    | Backref(index: GroupIndex, icase: bool)
    | Concat(first: Regex, second: Regex)
    | Alternate(first: Regex, second: Regex)
    | Group(body: Regex)
    | Look(negated: bool, body: Regex)
    | Repeat(body: Regex, times: Quantity, greedy: bool)

  /** Number of capture groups in a pattern. */
  function Groups(r: Regex): nat
  {
    match r
    case Concat(a, b) => Groups(a) + Groups(b)
    case Alternate(a, b) => Groups(a) + Groups(b)
    case Group(a) => 1 + Groups(a)
    case Look(_, a) => Groups(a)
    case Repeat(a, _, _) => Groups(a)
    case _ => 0
  }

  /** Position and captures; capture 2n is the start and 2n + 1 the end of group n, -1 when unset. */
  datatype State = State(pos: nat, caps: seq<int>)

  predicate InBounds(s: Subject, st: State)
  {
    st.pos <= |s.units| && forall k :: 0 <= k < |st.caps| ==> -1 <= st.caps[k] <= |s.units|
  }

  predicate Good(s: Subject, st: State) { InBounds(s, st) && Aligned(s, st.pos) }

  /** `x` is a possible later state of `st`. */
  predicate Follows(s: Subject, st: State, x: State)
  {
    Good(s, x) && st.pos <= x.pos && |x.caps| == |st.caps|
  }

  predicate AllFollow(s: Subject, st: State, xs: seq<State>)
  {
    forall i :: 0 <= i < |xs| ==> Follows(s, st, xs[i])
  }

  function SetCap(st: State, k: nat, v: int): State
  {
    if k < |st.caps| then st.(caps := st.caps[k := v]) else st
  }

  /** Unset groups first..last. */
  function ResetCaps(st: State, first: int, last: int): State
  {
    st.(caps := seq(|st.caps|, k requires 0 <= k < |st.caps| =>
      if 2 * first <= k <= 2 * last + 1 then -1 else st.caps[k]))
  }

  function Join(xss: seq<seq<State>>): seq<State>
  {
    if xss == [] then [] else xss[0] + Join(xss[1..])
  }

  lemma {:induction false} JoinFollows(s: Subject, st: State, xss: seq<seq<State>>)
    requires forall i :: 0 <= i < |xss| ==> AllFollow(s, st, xss[i])
    ensures AllFollow(s, st, Join(xss))
  {
    if xss != [] {
      JoinFollows(s, st, xss[1..]);
      assert AllFollow(s, st, xss[0]);
    }
  }

  lemma JoinOne(xs: seq<State>)
    ensures Join([xs]) == xs
  {
    assert Join([xs]) == xs + Join([]);
  }

  predicate IsChar(r: Regex) { r.Literal? || r.AnyChar? || r.Class? }
  predicate IsAssertion(r: Regex) { r.Begin? || r.End? || r.Boundary? }

  /** Does the single-character pattern `r` accept `c`? */
  predicate Accepts(s: Subject, r: Regex, c: CodePoint)
    requires IsChar(r)
  {
    match r
    case Literal(d, icase) => Fold(s, icase, d) == Fold(s, icase, c)
    case AnyChar(dotAll) => dotAll || !IsLineTerminator(c)
    case Class(points, icase) => InPoints(points, Fold(s, icase, c))
  }

  predicate Holds(s: Subject, r: Regex, p: nat)
    requires IsAssertion(r) && p <= |s.units|
  {
    match r
    case Begin(multi) => AtLineStart(s, p, multi)
    case End(multi) => AtLineEnd(s, p, multi)
    case Boundary(negated, icase) => AtBoundary(s, p, icase) != negated
  }

  /** The state after one character, if there is one and it is accepted. */
  function TakeChar(s: Subject, st: State, accepted: CodePoint -> bool): (xs: seq<State>)
    requires InBounds(s, st)
    ensures Good(s, st) ==> AllFollow(s, st, xs)
    ensures |xs| <= 1 && forall i :: 0 <= i < |xs| ==> st.pos < xs[i].pos && InBounds(s, xs[i])
  {
    if st.pos >= |s.units| then [] else
      var (c, next) := GetChar(s, st.pos, |s.units|);
      NextAligned(s, st.pos);
      if accepted(c) then [st.(pos := next)] else []
  }

  /** A back reference to an unset group matches the empty string. */
  function TakeBackref(s: Subject, st: State, n: nat, icase: bool): (xs: seq<State>)
    requires InBounds(s, st)
    ensures Good(s, st) ==> AllFollow(s, st, xs)
    ensures |xs| <= 1 && forall i :: 0 <= i < |xs| ==> InBounds(s, xs[i])
  {
    if 2 * n + 1 >= |st.caps| then [] else
    var from, to := st.caps[2 * n], st.caps[2 * n + 1];
    if from < 0 || to < 0 then [st] else
    var q := RepeatEnd(s, from, to, st.pos, icase);
    if q < 0 then [] else [st.(pos := q)]
  }

  /** A lookahead consumes nothing; a positive one keeps the captures of the first match of its body. */
  function LookResult(negated: bool, st: State, xs: seq<State>): seq<State>
  {
    if negated then (if xs == [] then [st] else []) else if xs == [] then [] else [State(st.pos, xs[0].caps)]
  }

  datatype Count = Times(n: nat) | Unlimited

  function Less(left: Count): Count
  {
    match left
    case Times(n) => Times(if n > 0 then n - 1 else 0)
    case Unlimited => Unlimited
  }

  /** quant_max == INT32_MAX stands for infinity. */
  function Extra(min: nat, max: nat): Count
  {
    if max == INT32_MAX then Unlimited else Times(if max > min then max - min else 0)
  }

  /** Captures of an atom that may be skipped are forgotten before the first try. */
  function EnterRepeat(r: Regex, cc: nat, st: State): State
    requires r.Repeat?
  {
    if r.times.min == 0 && Groups(r.body) > 0 then ResetCaps(st, cc, cc + Groups(r.body) - 1) else st
  }

  /** All ways `r` can match from `st`, in order of preference; `cc` is the number of its first group. */
  function Matches(s: Subject, r: Regex, cc: nat, st: State): (xs: seq<State>)
    requires Good(s, st)
    ensures AllFollow(s, st, xs)
    decreases r, 0
  {
    match r
    case Empty => [st]
    case Literal(_, _) => TakeChar(s, st, (c: CodePoint) => Accepts(s, r, c))
    case AnyChar(_) => TakeChar(s, st, (c: CodePoint) => Accepts(s, r, c))
    case Class(_, _) => TakeChar(s, st, (c: CodePoint) => Accepts(s, r, c))
    case Begin(_) => if Holds(s, r, st.pos) then [st] else []
    case End(_) => if Holds(s, r, st.pos) then [st] else []
    case Boundary(_, _) => if Holds(s, r, st.pos) then [st] else []
    case Backref(n, icase) => TakeBackref(s, st, n, icase)
    case Concat(a, b) =>
      var xss := MatchesEach(s, b, cc + Groups(a), st, Matches(s, a, cc, st));
      JoinFollows(s, st, xss);
      Join(xss)
    case Alternate(a, b) => Matches(s, a, cc, st) + Matches(s, b, cc + Groups(a), st)
    case Group(a) =>
      var xs := Matches(s, a, cc + 1, SetCap(st, 2 * cc, st.pos));
      seq(|xs|, i requires 0 <= i < |xs| => SetCap(xs[i], 2 * cc + 1, xs[i].pos))
    case Look(negated, a) =>
      LookResult(negated, st, Matches(s, a, cc, st))
    case Repeat(a, times, greedy) =>
      var st0 := EnterRepeat(r, cc, st);
      var xss := UpToEach(s, a, cc, Extra(times.min, times.max), greedy, st, Exactly(s, a, cc, times.min, st0));
      JoinFollows(s, st, xss);
      Join(xss)
  }

  /** `r` carried on from each of the states `xs`, all of which come after `st`. */
  function MatchesEach(s: Subject, r: Regex, cc: nat, st: State, xs: seq<State>): (xss: seq<seq<State>>)
    requires Good(s, st) && AllFollow(s, st, xs)
    ensures |xss| == |xs| && forall i :: 0 <= i < |xs| ==> xss[i] == Matches(s, r, cc, xs[i]) && AllFollow(s, st, xss[i])
    decreases r, 1
  {
    seq(|xs|, i requires 0 <= i < |xs| => Matches(s, r, cc, xs[i]))
  }

  /** Exactly `n` rounds of `a`. */
  function Exactly(s: Subject, a: Regex, cc: nat, n: nat, st: State): (xs: seq<State>)
    requires Good(s, st)
    ensures AllFollow(s, st, xs)
    decreases a, 2, n, 0
  {
    if n == 0 then [st] else
    var xss := ExactlyEach(s, a, cc, n - 1, st, Matches(s, a, cc, st));
    JoinFollows(s, st, xss);
    Join(xss)
  }

  function ExactlyEach(s: Subject, a: Regex, cc: nat, n: nat, st: State, xs: seq<State>): (xss: seq<seq<State>>)
    requires Good(s, st) && AllFollow(s, st, xs)
    ensures |xss| == |xs| && forall i :: 0 <= i < |xs| ==> xss[i] == Exactly(s, a, cc, n, xs[i]) && AllFollow(s, st, xss[i])
    decreases a, 2, n, 1
  {
    seq(|xs|, i requires 0 <= i < |xs| => Exactly(s, a, cc, n, xs[i]))
  }

  /** Up to `left` further rounds of `a`; a round that does not advance is rejected. */
  function UpTo(s: Subject, a: Regex, cc: nat, left: Count, greedy: bool, st: State): (xs: seq<State>)
    requires Good(s, st)
    ensures AllFollow(s, st, xs)
    decreases a, 2, |s.units| - st.pos, 1
  {
    if left == Times(0) then [st] else
    var xss := RoundEach(s, a, cc, Less(left), greedy, st, Matches(s, a, cc, st));
    JoinFollows(s, st, xss);
    if greedy then Join(xss) + [st] else [st] + Join(xss)
  }

  /** The continuations after one round begun at `st` that ended in `xs`. */
  function RoundEach(s: Subject, a: Regex, cc: nat, left: Count, greedy: bool, st: State, xs: seq<State>): (xss: seq<seq<State>>)
    requires Good(s, st) && AllFollow(s, st, xs)
    ensures |xss| == |xs| && forall i :: 0 <= i < |xs| ==>
      xss[i] == (if xs[i].pos == st.pos then [] else UpTo(s, a, cc, left, greedy, xs[i])) && AllFollow(s, st, xss[i])
    decreases a, 2, |s.units| - st.pos, 0
  {
    seq(|xs|, i requires 0 <= i < |xs| => if xs[i].pos == st.pos then [] else UpTo(s, a, cc, left, greedy, xs[i]))
  }

  function UpToEach(s: Subject, a: Regex, cc: nat, left: Count, greedy: bool, st: State, xs: seq<State>): (xss: seq<seq<State>>)
    requires Good(s, st) && AllFollow(s, st, xs)
    ensures |xss| == |xs| && forall i :: 0 <= i < |xs| ==> xss[i] == UpTo(s, a, cc, left, greedy, xs[i]) && AllFollow(s, st, xss[i])
    decreases a, 2, |s.units| - st.pos, 2
  {
    seq(|xs|, i requires 0 <= i < |xs| => UpTo(s, a, cc, left, greedy, xs[i]))
  }
}
