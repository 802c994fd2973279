// lre_exec_backtrack as a machine that takes one step at a time: either it executes the
// instruction at `pc`, or it unwinds the stack of choice points.
module Matcher {
  import opened Bytecode
  import opened Subjects
  import opened Regex

  const TWO64 := 0x1_0000_0000_0000_0000

  datatype Option<T> = None | Some(value: T)

  // RE_EXEC_STATE_x
  datatype Kind = KSplit | KLook | KNegLook | KGreedy(count: nat)

  /** A saved REExecState. */
  datatype Choice = Choice(kind: Kind, pc: int, st: State, stack: seq<int>)

  /** An active simple_greedy_quant: its address, the rounds done, and where the last one ended. */
  datatype Frame = Frame(pc: nat, q: nat, pos: nat, stack: seq<int>)

  /** The tops of `stack`, `choices` and `frames` are their last elements. */
  datatype Config =
    | Run(pc: int, st: State, stack: seq<int>, choices: seq<Choice>, frames: seq<Frame>)
    | Unwind(won: Option<seq<int>>, choices: seq<Choice>)
    | Done(won: Option<seq<int>>)
    | Stuck

  datatype Machine = Machine(code: seq<Byte>, s: Subject)

  function Last<T>(xs: seq<T>): T
    requires xs != []
  {
    xs[|xs| - 1]
  }

  function Front<T>(xs: seq<T>): seq<T>
    requires xs != []
  {
    xs[..|xs| - 1]
  }

  /** The binary search of the range opcodes among rs[lo..hi]. */
  predicate Search(rs: seq<Interval>, c: int, lo: nat, hi: nat)
    requires hi <= |rs|
    decreases if lo < hi then hi - lo else 0
  {
    if lo >= hi then false else
    var mid := (lo + hi - 1) / 2;
    if c < rs[mid].low then Search(rs, c, lo, mid)
    else if c > rs[mid].high then Search(rs, c, mid + 1, hi)
    else true
  }

  predicate InRanges(rs: seq<Interval>, c: int, wide: bool)
  {
    rs != [] && c >= rs[0].low &&
    if !wide && c >= 0xffff && Last(rs).high == 0xffff then true
    else c <= Last(rs).high && Search(rs, c, 0, |rs|)
  }

  predicate IsCharInstr(i: Instr)
  {
    i.Char? || i.Char32? || i.Dot? || i.Any? || i.Range? || i.Range32?
  }

  predicate Consumes(s: Subject, i: Instr, c: CodePoint)
    requires IsCharInstr(i)
  {
    match i
    case Char(d, icase) => d == Fold(s, icase, c)
    case Char32(d, icase) => d == Fold(s, icase, c)
    case Dot => !IsLineTerminator(c)
    case Any => true
    case Range(rs, icase) => InRanges(rs, Fold(s, icase, c), false)
    case Range32(rs, icase) => InRanges(rs, Fold(s, icase, c), true)
  }

  predicate IsTestInstr(i: Instr) { i.LineStart? || i.LineEnd? || i.WordBoundary? }

  predicate Passes(s: Subject, i: Instr, p: nat)
    requires IsTestInstr(i) && p <= |s.units|
  {
    match i
    case LineStart(multi) => AtLineStart(s, p, multi)
    case LineEnd(multi) => AtLineEnd(s, p, multi)
    case WordBoundary(negated, icase) => AtBoundary(s, p, icase) != negated
  }

  function Backtrack(choices: seq<Choice>): Config { Unwind(None, choices) }

  /** The loop of simple_greedy_quant is over: too few rounds, or go on behind it. */
  function QuantDone(m: Machine, c: Config): Config
    requires c.Run? && c.frames != []
    decreases |c.frames|, 0
  {
    var f := Last(c.frames);
    var out := Run(0, State(f.pos, c.st.caps), f.stack, c.choices, Front(c.frames));
    match Fetch(m.code, f.pc)
    case SimpleGreedyQuant(off, min, max, len) =>
      if f.q < min then NoMatch(m, out)
      else
        var choices := if f.q > min then c.choices + [Choice(KGreedy(f.q - min), f.pc + 1, out.st, f.stack)] else c.choices;
        out.(pc := f.pc + 17 + off, choices := choices)
    case _ => Stuck
  }

  function NoMatch(m: Machine, c: Config): Config
    requires c.Run?
    decreases |c.frames|, 1
  {
    if c.frames == [] then Backtrack(c.choices) else QuantDone(m, c)
  }

  /** The atom of a simple_greedy_quant has matched once more. */
  function RoundDone(m: Machine, c: Config): Config
    requires c.Run? && c.frames != []
  {
    var f := Last(c.frames);
    var g := f.(q := f.q + 1, pos := c.st.pos);
    var c' := c.(frames := Front(c.frames) + [g]);
    match Fetch(m.code, f.pc)
    case SimpleGreedyQuant(off, min, max, len) =>
      if g.q >= max && max != INT32_MAX then QuantDone(m, c')
      else c'.(pc := f.pc + 17, stack := f.stack)
    case _ => Stuck
  }

  function Continue(m: Machine, c: Config, next: int, xs: seq<State>): Config
    requires c.Run?
  {
    if xs == [] then NoMatch(m, c) else c.(pc := next, st := xs[0])
  }

  function Execute(m: Machine, c: Config, i: Instr): Config
    requires c.Run? && InBounds(m.s, c.st)
  {
    var next := c.pc + Size(i);
    if IsCharInstr(i) then Continue(m, c, next, TakeChar(m.s, c.st, (x: CodePoint) => Consumes(m.s, i, x)))
    else if IsTestInstr(i) then Continue(m, c, next, if Passes(m.s, i, c.st.pos) then [c.st] else [])
    else match i
    case Goto(off) => c.(pc := next + off)
    case Split(nextFirst, off) =>
      var go, save := if nextFirst then next else next + off, if nextFirst then next + off else next;
      c.(pc := go, choices := c.choices + [Choice(KSplit, save, c.st, c.stack)])
    case Lookahead(negated, off) =>
      c.(pc := next, choices := c.choices + [Choice(if negated then KNegLook else KLook, next + off, c.st, c.stack)])
    case Match => if c.frames == [] then Unwind(Some(c.st.caps), c.choices) else RoundDone(m, c)
    case SaveStart(k) =>
      if 0 <= k && 2 * k + 1 < |c.st.caps| then c.(pc := next, st := SetCap(c.st, 2 * k, c.st.pos)) else Stuck
    case SaveEnd(k) =>
      if 0 <= k && 2 * k + 1 < |c.st.caps| then c.(pc := next, st := SetCap(c.st, 2 * k + 1, c.st.pos)) else Stuck
    case SaveReset(a, b) =>
      if 0 <= a && 2 * b + 1 < |c.st.caps| then c.(pc := next, st := ResetCaps(c.st, a, b)) else Stuck
    case PushI32(n) => c.(pc := next, stack := c.stack + [n])
    case PushCharPos => c.(pc := next, stack := c.stack + [c.st.pos])
    case Drop => if c.stack == [] then Stuck else c.(pc := next, stack := Front(c.stack))
    case Loop(off) =>
      if c.stack == [] then Stuck else
      var v := (Last(c.stack) - 1) % TWO64;
      c.(pc := if v != 0 then next + off else next, stack := Front(c.stack) + [v])
    case CheckAdvance =>
      if c.stack == [] then Stuck else
      var c' := c.(pc := next, stack := Front(c.stack));
      if Last(c.stack) == c.st.pos then NoMatch(m, c') else c'
    case BackReference(k, icase) => if k < 0 then Stuck else Continue(m, c, next, TakeBackref(m.s, c.st, k, icase))
    case SimpleGreedyQuant(_, _, _, _) =>
      if c.pc < 0 then Stuck else c.(pc := next, frames := c.frames + [Frame(c.pc, 0, c.st.pos, c.stack)])
    case _ => Stuck
  }

  /** `n` times PREV_CHAR; -1 when that would leave the text. */
  function BackUp(s: Subject, p: nat, n: nat): (q: int)
    ensures -1 <= q <= p
    decreases n
  {
    if n == 0 then p else if p == 0 || p > |s.units| then -1 else BackUp(s, PrevPos(s, p), n - 1)
  }

  /** One turn of the `recurse` loop. */
  function Pop(m: Machine, won: Option<seq<int>>, choices: seq<Choice>): Config
  {
    if choices == [] then Done(won) else
    var t, rest := Last(choices), Front(choices);
    match t.kind
    case KSplit => if won.None? then Run(t.pc, t.st, t.stack, rest, []) else Unwind(won, rest)
    case KLook => if won.Some? then Run(t.pc, State(t.st.pos, won.value), t.stack, rest, []) else Unwind(None, rest)
    case KNegLook => if won.None? then Run(t.pc, t.st, t.stack, rest, []) else Unwind(None, rest)
    case KGreedy(n) => if won.None? then PopGreedy(m, t, n, rest) else Unwind(won, rest)
  }

  function PopGreedy(m: Machine, t: Choice, n: nat, rest: seq<Choice>): Config
  {
    match Fetch(m.code, t.pc - 1)
    case SimpleGreedyQuant(off, min, max, len) =>
      if t.st.pos > |m.s.units| || len < 0 || n == 0 then Stuck else
      var p := BackUp(m.s, t.st.pos, len);
      if p < 0 then Stuck else
      var st := t.st.(pos := p);
      var left := if n == 1 then rest else rest + [t.(kind := KGreedy(n - 1), st := st)];
      Run(t.pc + 16 + off, st, t.stack, left, [])
    case _ => Stuck
  }

  function Step(m: Machine, c: Config): Config
  {
    match c
    case Run(pc, st, _, _, _) => if InBounds(m.s, st) then Execute(m, c, Fetch(m.code, pc)) else Stuck
    case Unwind(won, choices) => Pop(m, won, choices)
    case _ => c
  }

  function Steps(m: Machine, c: Config, n: nat): Config
    decreases n
  {
    if n == 0 then c else Steps(m, Step(m, c), n - 1)
  }
}
