// compute_stack_size walks the code once, in address order. The compiled control flow is structured
// enough that the depth it assigns to an address is the depth of the counter stack on every arrival there.
module StackDepth {
  import opened Bytecode
  import opened Subjects
  import opened Regex
  import opened Matcher
  import opened CodeGen
  import opened Equations
  import opened Engine

  const STACK_SIZE_MAX := 255

  function Effect(i: Instr): int
  {
    if i.PushI32? || i.PushCharPos? then 1 else if i.Drop? || i.CheckAdvance? then -1 else 0
  }

  /** The stack depth after a stretch of code, read in address order. */
  function Depth(ins: seq<Instr>): int
  {
    if ins == [] then 0 else Effect(ins[0]) + Depth(ins[1..])
  }

  /** The running maximum of compute_stack_size; -1 when it exceeds STACK_SIZE_MAX. */
  function MaxDepth(ins: seq<Instr>, d: int, max: int): int
    decreases |ins|
  {
    if ins == [] then max else
    var e := d + Effect(ins[0]);
    if e > max then (if e > STACK_SIZE_MAX then -1 else MaxDepth(ins[1..], e, e))
    else MaxDepth(ins[1..], e, max)
  }

  predicate Pops(i: Instr) { i.Drop? || i.CheckAdvance? || i.Loop? }

  predicate Jumps(i: Instr) { i.Goto? || i.Split? || i.Loop? || i.Lookahead? || i.SimpleGreedyQuant? }

  /** `t` is the address of an instruction of `ins`, or its end, and the scan assigns depth `d` to it. */
  predicate Lands(ins: seq<Instr>, t: int, d: int)
    decreases |ins|
  {
    (t == 0 && d == 0) || (ins != [] && Lands(ins[1..], t - Size(ins[0]), d - Effect(ins[0])))
  }

  /** `i`, met at depth `d` just before address `next` of `all`, finds what it pops, and jumps to where
      the scan assigns the depth it leaves behind. */
  predicate Fits(i: Instr, next: int, d: int, all: seq<Instr>)
  {
    d >= 0 && (Pops(i) ==> d >= 1) && (Jumps(i) ==> Lands(all, next + i.off, d))
  }

  /** All of `ins`, which starts at address `p` of `all` at depth `d`, fits. */
  predicate AllFit(ins: seq<Instr>, p: int, d: int, all: seq<Instr>)
    decreases |ins|
  {
    ins == [] ||
    (Fits(ins[0], p + Size(ins[0]), d, all) && AllFit(ins[1..], p + Size(ins[0]), d + Effect(ins[0]), all))
  }

  predicate Safe(ins: seq<Instr>) { Depth(ins) == 0 && AllFit(ins, 0, 0, ins) }

  // ---------- composing ----------

  lemma {:induction false} DepthAppend(x: seq<Instr>, y: seq<Instr>)
    ensures Depth(x + y) == Depth(x) + Depth(y)
  {
    hide Effect;
    if x == [] {
      assert x + y == y;
    } else {
      assert (x + y)[0] == x[0] && (x + y)[1..] == x[1..] + y;
      DepthAppend(x[1..], y);
    }
  }

  lemma DepthFirst(i: Instr, y: seq<Instr>)
    ensures Depth([i] + y) == Effect(i) + Depth(y) && SizeAll([i] + y) == Size(i) + SizeAll(y)
  {
    hide Effect, Size;
    assert ([i] + y)[1..] == y;
  }

  lemma DepthOne(i: Instr)
    ensures Depth([i]) == Effect(i) && SizeAll([i]) == Size(i)
  {
    hide Effect, Size;
    assert [i][1..] == [];
  }

  lemma {:induction false} LandsInside(a: seq<Instr>, x: seq<Instr>, c: seq<Instr>, t: int, d: int)
    requires Lands(x, t, d)
    ensures Lands(a + (x + c), SizeAll(a) + t, Depth(a) + d)
    decreases |a|
  {
    hide Effect, Size;
    if a == [] {
      assert a + (x + c) == x + c;
      LandsBefore(x, c, t, d);
    } else {
      assert (a + (x + c))[0] == a[0] && (a + (x + c))[1..] == a[1..] + (x + c);
      LandsInside(a[1..], x, c, t, d);
    }
  }

  lemma {:induction false} LandsBefore(x: seq<Instr>, c: seq<Instr>, t: int, d: int)
    requires Lands(x, t, d)
    ensures Lands(x + c, t, d)
    decreases |x|
  {
    hide Effect, Size;
    if !(t == 0 && d == 0) {
      assert (x + c)[0] == x[0] && (x + c)[1..] == x[1..] + c;
      LandsBefore(x[1..], c, t - Size(x[0]), d - Effect(x[0]));
    }
  }

  /** The end of `a` inside a + c. */
  lemma LandsAfter(a: seq<Instr>, c: seq<Instr>)
    ensures Lands(a + c, SizeAll(a), Depth(a))
  {
    hide Size, Effect, SizeAll, Depth;
    LandsStart([]);
    assert [] + c == c;
    LandsInside(a, [], c, 0, 0);
  }

  lemma LandsStart(x: seq<Instr>)
    ensures Lands(x, 0, 0)
  {
  }

  lemma LandsEnd(x: seq<Instr>)
    ensures Lands(x, SizeAll(x), Depth(x))
  {
    hide SizeAll, Depth, Lands;
    assert x + [] == x;
    LandsAfter(x, []);
  }

  lemma {:induction false} FitAppend(x: seq<Instr>, y: seq<Instr>, p: int, d: int, all: seq<Instr>)
    ensures AllFit(x + y, p, d, all) <==> AllFit(x, p, d, all) && AllFit(y, p + SizeAll(x), d + Depth(x), all)
    decreases |x|
  {
    hide Effect, Size, Fits;
    if x == [] {
      assert x + y == y;
    } else {
      assert (x + y)[0] == x[0] && (x + y)[1..] == x[1..] + y;
      FitAppend(x[1..], y, p + Size(x[0]), d + Effect(x[0]), all);
    }
  }

  lemma FitFirst(i: Instr, y: seq<Instr>, p: int, d: int, all: seq<Instr>)
    ensures AllFit([i] + y, p, d, all) <==> Fits(i, p + Size(i), d, all) && AllFit(y, p + Size(i), d + Effect(i), all)
  {
    hide Effect, Size, Fits;
    assert ([i] + y)[1..] == y;
  }

  lemma FitNone(p: int, d: int, all: seq<Instr>)
    ensures AllFit([], p, d, all)
  {
  }

  /** Code that is safe on its own stays safe wherever it is copied to. */
  lemma {:induction false} Relocate(a: seq<Instr>, x: seq<Instr>, c: seq<Instr>, ins: seq<Instr>, p: int, d: int)
    requires AllFit(ins, p, d, x) && Depth(a) >= 0
    ensures AllFit(ins, SizeAll(a) + p, Depth(a) + d, a + (x + c))
    decreases |ins|
  {
    hide Effect, Size, Lands, Pops, SizeAll, Depth;
    if ins != [] {
      var i := ins[0];
      if Jumps(i) {
        LandsInside(a, x, c, p + Size(i) + i.off, d);
      }
      Relocate(a, x, c, ins[1..], p + Size(i), d + Effect(i));
    }
  }

  /** A safe stretch at its place inside a longer one. */
  lemma SafeInside(a: seq<Instr>, x: seq<Instr>, c: seq<Instr>)
    requires Safe(x) && Depth(a) >= 0
    ensures AllFit(x, SizeAll(a), Depth(a), a + (x + c)) && Depth(x) == 0
  {
    hide Depth, SizeAll, AllFit;
    Relocate(a, x, c, x, 0, 0);
  }

  lemma SafeNone()
    ensures Safe([])
  {
  }

  lemma SafeOne(i: Instr)
    requires Effect(i) == 0 && !Pops(i) && !Jumps(i)
    ensures Safe([i])
  {
    DepthOne(i);
    assert [i][1..] == [];
  }

  lemma SafeAppend(x: seq<Instr>, y: seq<Instr>)
    requires Safe(x) && Safe(y)
    ensures Safe(x + y)
  {
    hide Depth, SizeAll, AllFit;
    DepthAppend(x, y);
    DepthNone();
    SafeInside([], x, y);
    assert [] + (x + y) == x + y;
    SafeInside(x, y, []);
    assert x + (y + []) == x + y;
    FitAppend(x, y, 0, 0, x + y);
  }

  lemma DepthNone()
    ensures Depth([]) == 0 && SizeAll([]) == 0
  {
  }

  // ---------- the shapes the compiler builds around safe code ----------

  /** Addresses and depths in  i x j  rest */
  lemma BracketLayout(i: Instr, x: seq<Instr>, rest: seq<Instr>)
    requires Safe(x) && Effect(i) >= 0
    ensures var z := [i] + (x + rest);
            AllFit(x, Size(i), Effect(i), z) && Lands(z, Size(i), Effect(i)) &&
            Lands(z, Size(i) + SizeAll(x), Effect(i)) &&
            Depth(z) == Effect(i) + Depth(rest) && SizeAll(z) == Size(i) + SizeAll(x) + SizeAll(rest) &&
            Lands(z, SizeAll(z), Depth(z))
  {
    hide Effect, Size, Lands, AllFit, SizeAll, Depth;
    var z := [i] + (x + rest);
    DepthOne(i);
    SafeInside([i], x, rest);
    LandsAfter([i], x + rest);
    DepthFirst(i, x + rest);
    DepthAppend(x, rest);
    SizeAllAppend(x, rest);
    DepthAppend([i], x);
    SizeAllAppend([i], x);
    LandsAfter([i] + x, rest);
    assert ([i] + x) + rest == z;
    LandsEnd(z);
  }

  /** Once the two ends fit, the whole is safe. */
  lemma BracketSafe(i: Instr, x: seq<Instr>, rest: seq<Instr>)
    requires Safe(x) && Effect(i) >= 0 && Effect(i) + Depth(rest) == 0
    requires var z := [i] + (x + rest);
             Fits(i, Size(i), 0, z) && AllFit(rest, Size(i) + SizeAll(x), Effect(i), z)
    ensures Safe([i] + (x + rest))
  {
    hide Effect, Size, Lands, AllFit, SizeAll, Depth, Fits;
    var z := [i] + (x + rest);
    BracketLayout(i, x, rest);
    DepthOne(i);
    SafeInside([i], x, rest);
    FitAppend(x, rest, Size(i), Effect(i), z);
    FitFirst(i, x + rest, 0, 0, z);
  }

  lemma RoundSafe(a: seq<Instr>, check: bool)
    requires Safe(a)
    ensures Safe(Round(a, check)) && SizeAll(Round(a, check)) == RoundSize(a, check)
  {
    hide SizeAll, Depth, Safe, AllFit, Lands;
    if check {
      assert Round(a, true) == [PushCharPos] + (a + [CheckAdvance]);
      DepthOne(CheckAdvance);
      OneFits(CheckAdvance, 1 + SizeAll(a), 1, Round(a, true));
      BracketLayout(PushCharPos, a, [CheckAdvance]);
      BracketSafe(PushCharPos, a, [CheckAdvance]);
    }
  }

  lemma OneFits(j: Instr, p: int, d: int, all: seq<Instr>)
    ensures AllFit([j], p, d, all) <==> Fits(j, p + Size(j), d, all)
  {
    hide Fits, Size, Effect;
    assert [j][1..] == [];
  }

  /** [Split over everything] round [Goto back to the split] */
  lemma UnlimitedSafe(a: seq<Instr>, check: bool, greedy: bool)
    requires Safe(a)
    ensures Safe(LoopCode(a, check, Unlimited, greedy))
  {
    hide SizeAll, Depth, Safe, Lands, Round, AllFit;
    var n: int := RoundSize(a, check);
    var i, r, j := Split(greedy, n + 5), Round(a, check), Goto(-(n + 10));
    var z := [i] + (r + [j]);
    RoundSafe(a, check);
    DepthOne(j);
    BracketLayout(i, r, [j]);
    LandsStart(z);
    OneFits(j, n + 5, 0, z);
    BracketSafe(i, r, [j]);
  }

  /** [Push] x [Loop] [Drop], where the loop goes back to a place at depth 1 */
  lemma PushSafe(k: int, x: seq<Instr>, back: Instr)
    requires Safe(x) && back.Loop?
    requires var z := [PushI32(k)] + (x + [back, Drop]); Lands(z, 10 + SizeAll(x) + back.off, 1)
    ensures Safe([PushI32(k)] + (x + [back, Drop]))
  {
    hide SizeAll, Depth, Safe, Lands, AllFit;
    var i, rest := PushI32(k), [back, Drop];
    var z := [i] + (x + rest);
    assert rest == [back] + [Drop];
    DepthFirst(back, [Drop]);
    DepthOne(Drop);
    FitFirst(back, [Drop], 5 + SizeAll(x), 1, z);
    OneFits(Drop, 10 + SizeAll(x), 1, z);
    BracketSafe(i, x, rest);
  }

  /** [Push] [Split to the drop] round [Loop back to the split] [Drop] */
  lemma CountedSafe(a: seq<Instr>, check: bool, k: nat, greedy: bool)
    requires Safe(a) && k > 0
    ensures Safe(LoopCode(a, check, Times(k), greedy))
  {
    hide SizeAll, Depth, Safe, Lands, Round, AllFit;
    var n: int := RoundSize(a, check);
    var r, push, split := Round(a, check), PushI32(k), Split(greedy, n + 5);
    var back, drop := [Loop(-(n + 10))], [Drop];
    RoundSafe(a, check);
    assert [Loop(-(n + 10)), Drop] == back + drop;
    CountedParts(push, split, r, Loop(-(n + 10)));
  }

  lemma CountedParts(push: Instr, split: Instr, r: seq<Instr>, back: Instr)
    requires push.PushI32? && split.Split? && back.Loop? && Safe(r)
    requires split.off == SizeAll(r) + 5 && back.off == -(SizeAll(r) + 10)
    ensures Safe([push] + ([split] + (r + ([back] + [Drop]))))
  {
    hide SizeAll, Depth, Lands, AllFit, Safe;
    var rest := [back] + [Drop];
    var z := [push] + ([split] + (r + rest));
    CountedLands(push, split, r, back);
    DepthFirst(push, [split] + (r + rest));
    DepthFirst(split, r + rest);
    DepthAppend(r, rest);
    DepthFirst(back, [Drop]);
    DepthOne(Drop);
    FitFirst(push, [split] + (r + rest), 0, 0, z);
    FitFirst(split, r + rest, 5, 1, z);
    FitAppend(r, rest, 10, 1, z);
    FitFirst(back, [Drop], 10 + SizeAll(r), 1, z);
    OneFits(Drop, 15 + SizeAll(r), 1, z);
    SafeFrom(z);
  }

  lemma SafeFrom(z: seq<Instr>)
    requires Depth(z) == 0 && AllFit(z, 0, 0, z)
    ensures Safe(z)
  {
  }

  lemma CountedLands(push: Instr, split: Instr, r: seq<Instr>, back: Instr)
    requires push.PushI32? && split.Split? && back.Loop? && Safe(r)
    ensures var z := [push] + ([split] + (r + ([back] + [Drop])));
            Lands(z, 5, 1) && Lands(z, 15 + SizeAll(r), 1) && AllFit(r, 10, 1, z) && Depth(r) == 0
  {
    hide SizeAll, Depth, Lands, AllFit, Safe;
    var z := [push] + ([split] + (r + ([back] + [Drop])));
    DepthOne(push);
    LandsAfter([push], [split] + (r + ([back] + [Drop])));
    var two := [push] + [split];
    DepthFirst(push, [split]);
    DepthOne(split);
    assert two + (r + ([back] + [Drop])) == z;
    SafeInside(two, r, [back] + [Drop]);
    DepthAppend(two, r);
    SizeAllAppend(two, r);
    DepthOne(back);
    DepthAppend(two + r, [back]);
    SizeAllAppend(two + r, [back]);
    assert (two + r + [back]) + [Drop] == z;
    LandsAfter(two + r + [back], [Drop]);
  }

  lemma LoopSafe(a: seq<Instr>, check: bool, left: Count, greedy: bool)
    requires Safe(a)
    ensures Safe(LoopCode(a, check, left, greedy))
  {
    hide Safe;
    match left
    case Unlimited => UnlimitedSafe(a, check, greedy);
    case Times(k) => if k == 0 { SafeNone(); } else { CountedSafe(a, check, k, greedy); }
  }

  /** [Push] x [Loop back to x] [Drop] */
  lemma HeadSafe(x: seq<Instr>, min: nat)
    requires Safe(x)
    ensures Safe([PushI32(min)] + (x + [Loop(-(SizeAll(x) + 5)), Drop]))
  {
    hide SizeAll, Depth, Safe, Lands;
    var back := Loop(-(SizeAll(x) + 5));
    BracketLayout(PushI32(min), x, [back, Drop]);
    PushSafe(min, x, back);
  }

  lemma SafeTrailingSplit(x: seq<Instr>, greedy: bool)
    requires Safe(x)
    ensures Safe(x + [Split(greedy, -(SizeAll(x) + 5))])
  {
    hide SizeAll, Depth, Lands, AllFit;
    var i := Split(greedy, -(SizeAll(x) + 5));
    var z := x + [i];
    DepthOne(i);
    DepthNone();
    DepthAppend(x, [i]);
    LandsStart(z);
    SafeInside([], x, [i]);
    assert [] + z == z;
    OneFits(i, SizeAll(x), 0, z);
    FitAppend(x, [i], 0, 0, z);
  }

  /** A conditional jump over a safe stretch. */
  lemma SafeSkip(i: Instr, x: seq<Instr>)
    requires i.Split? && i.off == SizeAll(x) && Safe(x)
    ensures Safe([i] + x)
  {
    hide SizeAll, Depth, Safe, Lands, AllFit;
    assert x + [] == x;
    DepthNone();
    BracketLayout(i, x, []);
    FitNone(5 + SizeAll(x), 0, [i] + x);
    BracketSafe(i, x, []);
  }

  /** [i jumping behind the match] x [Match] */
  lemma SafeEnclosed(i: Instr, x: seq<Instr>)
    requires (i.Lookahead? || i.SimpleGreedyQuant?) && i.off == SizeAll(x) + 1 && Safe(x)
    ensures Safe([i] + (x + [Match]))
  {
    hide SizeAll, Depth, Safe, Lands, AllFit;
    DepthOne(Match);
    BracketLayout(i, x, [Match]);
    OneFits(Match, Size(i) + SizeAll(x), 0, [i] + (x + [Match]));
    BracketSafe(i, x, [Match]);
  }

  lemma SafeSaved(cc: nat, x: seq<Instr>)
    requires Safe(x)
    ensures Safe(GroupCode(cc, x))
  {
    hide SizeAll, Depth, Safe, Lands, AllFit;
    var i, j := SaveStart(cc), SaveEnd(cc);
    DepthOne(j);
    OneFits(j, 2 + SizeAll(x), 0, [i] + (x + [j]));
    BracketSafe(i, x, [j]);
  }

  lemma RepeatSafe(a: seq<Instr>, cc: nat, groups: nat, min: nat, max: nat, greedy: bool)
    requires Safe(a)
    ensures Safe(RepeatCode(a, cc, groups, min, max, greedy))
  {
    hide SizeAll, Safe, LoopCode, Round, Scan, SimpleLength;
    var check := NeedCheckAdvance(a);
    LoopSafe(a, check, Extra(min, max), greedy);
    LoopSafe(a, check, Extra(0, max), greedy);
    RoundSafe(a, check);
    if UsesSimpleQuant(a, max, greedy) {
      SafeEnclosed(SimpleGreedyQuant(SizeAll(a) + 1, min, max, SimpleLength(a)), a);
    } else if min == 0 {
      SafeSkip(Split(greedy, RoundSize(a, check)), Round(a, check));
      SafeNone();
      SafeOne(SaveReset(cc, cc + groups - 1));
      SafeAppend(ResetCode(cc, groups),
                 if max == 1 then [Split(greedy, RoundSize(a, check))] + Round(a, check)
                 else LoopCode(a, check, Extra(0, max), greedy));
    } else if min == 1 && max == INT32_MAX && !check {
      SafeTrailingSplit(a, !greedy);
    } else {
      HeadSafe(a, min);
      SafeAppend(if min == 1 then a else [PushI32(min)] + (a + [Loop(-(SizeAll(a) + 5)), Drop]),
                 LoopCode(a, check, Extra(min, max), greedy));
    }
  }

  lemma AlternateSafe(x: seq<Instr>, y: seq<Instr>)
    requires Safe(x) && Safe(y)
    ensures Safe(AlternateCode(x, y))
  {
    hide SizeAll, Depth, Safe, Lands, AllFit;
    var i, j := Split(true, SizeAll(x) + 5), Goto(SizeAll(y));
    var z := [i] + (x + ([j] + y));
    BracketLayout(i, x, [j] + y);
    AlternateTail(i, x, j, y);
    DepthFirst(j, y);
    FitFirst(j, y, 5 + SizeAll(x), 0, z);
    BracketSafe(i, x, [j] + y);
  }

  lemma AlternateTail(i: Instr, x: seq<Instr>, j: Instr, y: seq<Instr>)
    requires i.Split? && j.Goto? && Safe(x) && Safe(y)
    ensures var z := [i] + (x + ([j] + y));
            Lands(z, 10 + SizeAll(x), 0) && AllFit(y, 10 + SizeAll(x), 0, z) && Depth(y) == 0
  {
    hide SizeAll, Depth, Safe, Lands, AllFit;
    var z := [i] + (x + ([j] + y));
    var a := [i] + (x + [j]);
    DepthOne(j);
    BracketLayout(i, x, [j]);
    SafeInside(a, y, []);
    assert y + [] == y && a + y == z;
    LandsAfter(a, y);
  }

  /** Compiled code is safe: no pop underflows, and every jump meets the depth at its target. */
  lemma {:induction false} CodeSafe(canon: Canon, r: Regex, cc: nat)
    ensures Safe(Code(canon, r, cc))
    decreases r
  {
    hide Safe, RepeatCode, AlternateCode, GroupCode, SizeAll, Depth;
    match r
    case Empty => SafeNone();
    case Concat(a, b) =>
      CodeSafe(canon, a, cc);
      CodeSafe(canon, b, cc + Groups(a));
      SafeAppend(Code(canon, a, cc), Code(canon, b, cc + Groups(a)));
    case Alternate(a, b) =>
      CodeSafe(canon, a, cc);
      CodeSafe(canon, b, cc + Groups(a));
      AlternateSafe(Code(canon, a, cc), Code(canon, b, cc + Groups(a)));
    case Group(a) =>
      CodeSafe(canon, a, cc + 1);
      SafeSaved(cc, Code(canon, a, cc + 1));
    case Look(negated, a) =>
      CodeSafe(canon, a, cc);
      SafeEnclosed(Lookahead(negated, SizeAll(Code(canon, a, cc)) + 1), Code(canon, a, cc));
    case Repeat(a, times, greedy) =>
      CodeSafe(canon, a, cc);
      RepeatSafe(Code(canon, a, cc), cc, Groups(a), times.min, times.max, greedy);
    case _ =>
      var code := Code(canon, r, cc);
      assert code == [code[0]];
      SafeOne(code[0]);
  }

  // ---------- every reachable state ----------

  /** The depth the scan assigns to an address is unique. */
  lemma {:induction false} LandsUnique(x: seq<Instr>, t: int, d: int, e: int)
    requires Lands(x, t, d) && Lands(x, t, e)
    ensures d == e
    decreases |x|
  {
    hide Effect;
    if t != 0 {
      LandsUnique(x[1..], t - Size(x[0]), d - Effect(x[0]), e - Effect(x[0]));
    } else {
      LandsAtZero(x, d);
      LandsAtZero(x, e);
    }
  }

  lemma LandsAtZero(x: seq<Instr>, d: int)
    requires Lands(x, 0, d)
    ensures d == 0
  {
    hide Effect;
    if d != 0 {
      LandsNonNegative(x[1..], -(Size(x[0]) as int), d - Effect(x[0]));
    }
  }

  lemma {:induction false} LandsNonNegative(x: seq<Instr>, t: int, d: int)
    requires Lands(x, t, d)
    ensures t >= 0
    decreases |x|
  {
    hide Effect;
    if !(t == 0 && d == 0) {
      LandsNonNegative(x[1..], t - Size(x[0]), d - Effect(x[0]));
    }
  }

  /** An address inside safe code holds an instruction that fits there; the end holds the final match. */
  ghost predicate Place(m: Machine, x: seq<Instr>, pc: int, d: int)
  {
    var i := Fetch(m.code, pc);
    Lands(x, pc - HEADER_LEN, d) &&
    (i == Match ||
     (Fits(i, pc - HEADER_LEN + Size(i), d, x) && Lands(x, pc - HEADER_LEN + Size(i), d + Effect(i))))
  }

  lemma {:induction false} PlaceAt(m: Machine, x: seq<Instr>, ins: seq<Instr>, p: nat, d: int, t: int, e: int)
    requires Loaded(m.code, p, ins + [Match]) && AllFit(ins, p - HEADER_LEN, d, x)
    requires Lands(ins, t, e) && Lands(x, p + t - HEADER_LEN, d + e)
    requires forall u, f :: Lands(ins, u, f) ==> Lands(x, p + u - HEADER_LEN, d + f)
    ensures Place(m, x, p + t, d + e)
    decreases |ins|
  {
    hide Effect, Size, Fits, Fetch;
    if t == 0 && e == 0 {
      if ins == [] {
        assert ([] + [Match])[0] == Match;
      } else {
        assert (ins + [Match])[0] == ins[0];
        LandsStart(ins[1..]);
        assert Lands(ins, Size(ins[0]), Effect(ins[0]));
      }
    } else {
      assert (ins + [Match])[0] == ins[0] && (ins + [Match])[1..] == ins[1..] + [Match];
      forall u, f | Lands(ins[1..], u, f)
        ensures Lands(x, p + Size(ins[0]) + u - HEADER_LEN, d + Effect(ins[0]) + f)
      {
        assert Lands(ins, u + Size(ins[0]), f + Effect(ins[0]));
      }
      PlaceAt(m, x, ins[1..], p + Size(ins[0]), d + Effect(ins[0]), t - Size(ins[0]), e - Effect(ins[0]));
    }
  }

  lemma LandsPlace(m: Machine, x: seq<Instr>, t: int, d: int)
    requires Safe(x) && Loaded(m.code, HEADER_LEN, x + [Match]) && Lands(x, t, d)
    ensures Place(m, x, HEADER_LEN + t, d)
  {
    hide Loaded, AllFit, Lands, Place;
    PlaceAt(m, x, x, HEADER_LEN, 0, t, d);
  }

  /** The counter stack saved at a choice point belongs to the address it resumes at. */
  ghost predicate ChoiceOk(x: seq<Instr>, k: Choice)
  {
    Lands(x, (if k.kind.KGreedy? then k.pc - 1 else k.pc) - HEADER_LEN, |k.stack|)
  }

  ghost predicate Consistent(x: seq<Instr>, c: Config)
  {
    match c
    case Run(pc, _, stack, choices, frames) =>
      Lands(x, pc - HEADER_LEN, |stack|) &&
      (forall i :: 0 <= i < |choices| ==> ChoiceOk(x, choices[i])) &&
      (forall i :: 0 <= i < |frames| ==> Lands(x, frames[i].pc - HEADER_LEN, |frames[i].stack|))
    case Unwind(_, choices) => forall i :: 0 <= i < |choices| ==> ChoiceOk(x, choices[i])
    case _ => true
  }

  lemma ConsistentBacktrack(x: seq<Instr>, c: Config)
    requires c.Run? && Consistent(x, c)
    ensures Consistent(x, Backtrack(c.choices))
  {
    hide Lands;
  }

  lemma {:induction false} ConsistentQuantDone(m: Machine, x: seq<Instr>, c: Config)
    requires Safe(x) && Loaded(m.code, HEADER_LEN, x + [Match])
    requires c.Run? && c.frames != [] && Consistent(x, c)
    ensures Consistent(x, QuantDone(m, c))
    decreases |c.frames|, 0
  {
    hide Lands, Loaded, Safe, Fetch;
    var f := Last(c.frames);
    LandsPlace(m, x, f.pc - HEADER_LEN, |f.stack|);
    match Fetch(m.code, f.pc)
    case SimpleGreedyQuant(off, min, max, len) =>
      var out := Run(f.pc, State(f.pos, c.st.caps), f.stack, c.choices, Front(c.frames));
      assert Consistent(x, out);
      if f.q < min {
        ConsistentNoMatch(m, x, out);
        NoMatchSame(m, out, out.(pc := 0));
      }
    case _ =>
  }

  lemma NoMatchSame(m: Machine, c: Config, d: Config)
    requires c.Run? && d.Run? && c == d.(pc := c.pc)
    ensures NoMatch(m, c) == NoMatch(m, d)
  {
    hide Fetch;
  }

  lemma {:induction false} ConsistentNoMatch(m: Machine, x: seq<Instr>, c: Config)
    requires Safe(x) && Loaded(m.code, HEADER_LEN, x + [Match])
    requires c.Run? && Consistent(x, c)
    ensures Consistent(x, NoMatch(m, c))
    decreases |c.frames|, 1
  {
    hide Lands, Loaded, Safe, Fetch;
    if c.frames == [] {
      ConsistentBacktrack(x, c);
    } else {
      ConsistentQuantDone(m, x, c);
    }
  }

  lemma ConsistentRoundDone(m: Machine, x: seq<Instr>, c: Config)
    requires Safe(x) && Loaded(m.code, HEADER_LEN, x + [Match])
    requires c.Run? && c.frames != [] && Consistent(x, c)
    ensures Consistent(x, RoundDone(m, c))
  {
    hide Lands, Loaded, Safe, Fetch, QuantDone;
    var f := Last(c.frames);
    LandsPlace(m, x, f.pc - HEADER_LEN, |f.stack|);
    var g := f.(q := f.q + 1, pos := c.st.pos);
    var c' := c.(frames := Front(c.frames) + [g]);
    assert Consistent(x, c');
    ConsistentQuantDone(m, x, c');
  }

  /** Executing an instruction where the scan put it leads to another place with the scanned depth. */
  lemma ConsistentExecute(m: Machine, x: seq<Instr>, c: Config)
    requires Safe(x) && Loaded(m.code, HEADER_LEN, x + [Match])
    requires c.Run? && Consistent(x, c) && InBounds(m.s, c.st)
    ensures Consistent(x, Execute(m, c, Fetch(m.code, c.pc)))
  {
    hide Lands, Loaded, Safe, Fetch, NoMatch, RoundDone, TakeChar, TakeBackref;
    var i, d := Fetch(m.code, c.pc), |c.stack|;
    LandsPlace(m, x, c.pc - HEADER_LEN, d);
    ConsistentNoMatch(m, x, c);
    if c.frames != [] {
      ConsistentRoundDone(m, x, c);
    }
    if i.CheckAdvance? && c.stack != [] {
      ConsistentNoMatch(m, x, c.(pc := c.pc + 1, stack := Front(c.stack)));
    }
  }

  lemma ConsistentPop(m: Machine, x: seq<Instr>, won: Option<seq<int>>, choices: seq<Choice>)
    requires Safe(x) && Loaded(m.code, HEADER_LEN, x + [Match]) && Consistent(x, Unwind(won, choices))
    ensures Consistent(x, Pop(m, won, choices))
  {
    hide Lands, Loaded, Safe, Fetch, BackUp;
    if choices != [] {
      var t := Last(choices);
      assert ChoiceOk(x, t);
      LandsPlace(m, x, (if t.kind.KGreedy? then t.pc - 1 else t.pc) - HEADER_LEN, |t.stack|);
    }
  }

  lemma ConsistentStep(m: Machine, x: seq<Instr>, c: Config)
    requires Safe(x) && Loaded(m.code, HEADER_LEN, x + [Match]) && Consistent(x, c)
    ensures Consistent(x, Step(m, c))
  {
    hide Lands, Loaded, Safe, Execute, Pop, Consistent;
    match c
    case Run(_, st, _, _, _) => if InBounds(m.s, st) { ConsistentExecute(m, x, c); } else { ConsistentStuck(x); }
    case Unwind(won, choices) => ConsistentPop(m, x, won, choices);
    case _ =>
  }

  lemma ConsistentStuck(x: seq<Instr>)
    ensures Consistent(x, Stuck)
  {
  }

  lemma {:induction false} ConsistentSteps(m: Machine, x: seq<Instr>, c: Config, n: nat)
    requires Safe(x) && Loaded(m.code, HEADER_LEN, x + [Match]) && Consistent(x, c)
    ensures Consistent(x, Steps(m, c, n))
    decreases n
  {
    hide Lands, Loaded, Safe, Consistent, Step;
    if n > 0 {
      ConsistentStep(m, x, c);
      ConsistentSteps(m, x, Step(m, c), n - 1);
    }
  }

  // ---------- the number in the header ----------

  lemma {:induction false} MaxDepthGrows(ins: seq<Instr>, d: int, max: int)
    ensures MaxDepth(ins, d, max) == -1 || MaxDepth(ins, d, max) >= max
    decreases |ins|
  {
    hide Effect;
    if ins != [] {
      var e := d + Effect(ins[0]);
      MaxDepthGrows(ins[1..], e, if e > max then e else max);
    }
  }

  /** compute_stack_size bounds the depth at every address. */
  lemma {:induction false} MaxDepthBounds(ins: seq<Instr>, d: int, max: int, t: int, e: int)
    requires Lands(ins, t, e) && d <= max && MaxDepth(ins, d, max) >= 0
    ensures d + e <= MaxDepth(ins, d, max)
    decreases |ins|
  {
    hide Effect, Size;
    MaxDepthGrows(ins, d, max);
    if !(t == 0 && e == 0) {
      var f := d + Effect(ins[0]);
      MaxDepthBounds(ins[1..], f, if f > max then f else max, t - Size(ins[0]), e - Effect(ins[0]));
    }
  }

  /** The depth `e` is scanned somewhere in the code. */
  ghost predicate Scanned(ins: seq<Instr>, e: int)
  {
    exists t :: Lands(ins, t, e)
  }

  lemma ScannedFirst(ins: seq<Instr>, e: int)
    ensures Scanned(ins, e) <==> e == 0 || (ins != [] && Scanned(ins[1..], e - Effect(ins[0])))
  {
    hide Effect, Size;
    LandsStart(ins);
    if Scanned(ins, e) && e != 0 {
      var t :| Lands(ins, t, e);
      assert Lands(ins[1..], t - Size(ins[0]), e - Effect(ins[0]));
    }
    if ins != [] && Scanned(ins[1..], e - Effect(ins[0])) {
      var t :| Lands(ins[1..], t, e - Effect(ins[0]));
      assert t + Size(ins[0]) - Size(ins[0]) == t;
      assert Lands(ins, t + Size(ins[0]), e);
    }
  }

  /** The running maximum is attained, and the scan gives up only for a depth that is too large. */
  lemma {:induction false} RunningMax(ins: seq<Instr>, d: int, max: int)
    requires d <= max && 0 <= max <= STACK_SIZE_MAX
    ensures var v := MaxDepth(ins, d, max);
            if v == -1 then exists e :: Scanned(ins, e) && d + e > STACK_SIZE_MAX
            else max <= v <= STACK_SIZE_MAX && (v == max || Scanned(ins, v - d))
    decreases |ins|
  {
    hide Effect, Scanned;
    if ins != [] {
      var k := Effect(ins[0]);
      var f := d + k;
      ScannedFirst(ins, k);
      ScannedFirst(ins[1..], 0);
      if f <= STACK_SIZE_MAX {
        var max' := if f > max then f else max;
        RunningMax(ins[1..], f, max');
        var v := MaxDepth(ins[1..], f, max');
        if v == -1 {
          var e :| Scanned(ins[1..], e) && f + e > STACK_SIZE_MAX;
          ScannedFirst(ins, k + e);
          assert Scanned(ins, k + e);
        } else {
          ScannedFirst(ins, v - d);
        }
      } else {
        assert Scanned(ins, k);
      }
    }
  }

  /** compute_stack_size is the greatest scanned depth, and fails exactly when that exceeds STACK_SIZE_MAX. */
  lemma MaxDepthLeast(ins: seq<Instr>)
    ensures var v := MaxDepth(ins, 0, 0);
            if v == -1 then exists e :: Scanned(ins, e) && e > STACK_SIZE_MAX
            else 0 <= v <= STACK_SIZE_MAX && Scanned(ins, v) && forall e | Scanned(ins, e) :: e <= v
  {
    hide MaxDepth;
    RunningMax(ins, 0, 0);
    LandsStart(ins);
    if MaxDepth(ins, 0, 0) >= 0 {
      forall e | Scanned(ins, e) ensures e <= MaxDepth(ins, 0, 0) {
        var t :| Lands(ins, t, e);
        MaxDepthBounds(ins, 0, 0, t, e);
      }
    }
  }

  predicate RepeatFree(r: Regex)
  {
    match r
    case Concat(a, b) => RepeatFree(a) && RepeatFree(b)
    case Alternate(a, b) => RepeatFree(a) && RepeatFree(b)
    case Group(a) => RepeatFree(a)
    case Look(_, a) => RepeatFree(a)
    case Repeat(_, _, _) => false
    case _ => true
  }

  predicate Still(ins: seq<Instr>) { forall i :: 0 <= i < |ins| ==> Effect(ins[i]) == 0 }

  lemma StillAppend(x: seq<Instr>, y: seq<Instr>)
    requires Still(x) && Still(y)
    ensures Still(x + y)
  {
  }

  lemma StillLeaf(canon: Canon, r: Regex, cc: nat)
    requires RepeatFree(r) && !r.Concat? && !r.Alternate? && !r.Group? && !r.Look?
    ensures Still(Code(canon, r, cc))
  {
  }

  lemma StillOne(i: Instr)
    requires Effect(i) == 0
    ensures Still([i])
  {
  }

  /** Without quantifiers nothing is pushed. */
  lemma {:induction false} RepeatFreeStill(canon: Canon, r: Regex, cc: nat)
    requires RepeatFree(r)
    ensures Still(Code(canon, r, cc))
  {
    hide Code, Still;
    match r
    case Concat(a, b) =>
      CodeConcat(canon, r, cc);
      RepeatFreeStill(canon, a, cc);
      RepeatFreeStill(canon, b, cc + Groups(a));
      StillAppend(Code(canon, a, cc), Code(canon, b, cc + Groups(a)));
    case Alternate(a, b) =>
      CodeAlternate(canon, r, cc);
      var x, y := Code(canon, a, cc), Code(canon, b, cc + Groups(a));
      RepeatFreeStill(canon, a, cc);
      RepeatFreeStill(canon, b, cc + Groups(a));
      StillOne(Goto(SizeAll(y)));
      StillAppend([Goto(SizeAll(y))], y);
      StillAppend(x, [Goto(SizeAll(y))] + y);
      StillOne(Split(true, SizeAll(x) + 5));
      StillAppend([Split(true, SizeAll(x) + 5)], x + ([Goto(SizeAll(y))] + y));
    case Group(a) =>
      CodeGroup(canon, r, cc);
      RepeatFreeStill(canon, a, cc + 1);
      StillBracket(SaveStart(cc), Code(canon, a, cc + 1), SaveEnd(cc));
    case Look(negated, a) =>
      CodeLook(canon, r, cc);
      RepeatFreeStill(canon, a, cc);
      StillBracket(Lookahead(negated, SizeAll(Code(canon, a, cc)) + 1), Code(canon, a, cc), Match);
    case _ => StillLeaf(canon, r, cc);
  }

  lemma StillBracket(i: Instr, x: seq<Instr>, j: Instr)
    requires Effect(i) == 0 && Effect(j) == 0 && Still(x)
    ensures Still([i] + (x + [j]))
  {
  }

  lemma {:induction false} StillDepth(ins: seq<Instr>)
    requires Still(ins)
    ensures MaxDepth(ins, 0, 0) == 0
  {
    hide Effect;
    if ins != [] {
      StillDepth(ins[1..]);
    }
  }

  /** In every state a compiled pattern can reach, the counter stack has exactly the depth that the linear
      scan assigns to the program counter (which is unique, by LandsUnique); so it never exceeds the size
      recorded in the header, and no pop finds it empty. */
  lemma StackSound(m: Machine, r: Regex, sticky: bool, p: nat, ncap: nat, n: nat)
    requires Loaded(m.code, HEADER_LEN, ProgramCode(m.s.canon, r, sticky))
    ensures var code := ProgramCode(m.s.canon, r, sticky); var c := Steps(m, Initial(p, ncap), n);
            c.Run? ==>
            Lands(code, c.pc - HEADER_LEN, |c.stack|) &&
            (MaxDepth(code, 0, 0) >= 0 ==> |c.stack| <= MaxDepth(code, 0, 0)) &&
            (Pops(Fetch(m.code, c.pc)) ==> c.stack != [])
  {
    hide Lands, Loaded, Safe, Code, Steps, ProgramCode, MaxDepth, Fetch;
    var code, x := ProgramCode(m.s.canon, r, sticky), Code(m.s.canon, Whole(r, sticky), 0);
    ProgramIsCode(m.s.canon, r, sticky);
    CodeSafe(m.s.canon, Whole(r, sticky), 0);
    LandsStart(x);
    ConsistentSteps(m, x, Initial(p, ncap), n);
    var c := Steps(m, Initial(p, ncap), n);
    if c.Run? {
      var t := c.pc - HEADER_LEN;
      LandsBefore(x, [Match], t, |c.stack|);
      LandsPlace(m, x, t, |c.stack|);
      if MaxDepth(code, 0, 0) >= 0 {
        MaxDepthBounds(code, 0, 0, t, |c.stack|);
      }
    }
  }
}
