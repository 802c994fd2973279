// The instructions that re_parse_disjunction, re_parse_alternative and re_parse_term leave behind for a pattern.
module CodeGen {
  import opened Bytecode
  import opened Subjects
  import opened PointSets
  import opened Regex

  type Canon = CodePoint -> CodePoint

  const CAPTURE_COUNT_MAX := 255
  const RANGE_COUNT_MAX := 65535

  function LiteralCode(canon: Canon, c: CodePoint, icase: bool): seq<Instr>
  {
    var d := if icase then canon(c) else c;
    if d <= 0xffff then [Char(d, icase)] else [Char32(d, icase)]
  }

  /** re_emit_range: 16-bit intervals when they suffice, with 0xffff standing for infinity. */
  function ClassCode(points: seq<int>, icase: bool): seq<Instr>
    requires |points| % 2 == 0
  {
    var n := |points| / 2;
    if n == 0 then [Char32(UINT32_MAX, false)] else
    var last := if points[2 * n - 1] == UINT32_MAX then points[2 * n - 2] else points[2 * n - 1];
    if last <= 0xffff then [Range(Intervals(points, 0xffff), icase)]
    else [Range32(Intervals(points, UINT32_MAX - 1), icase)]
  }

  function Intervals(points: seq<int>, infinity: int): (rs: seq<Interval>)
    requires |points| % 2 == 0
    ensures |rs| == |points| / 2
  {
    seq(|points| / 2, k requires 0 <= k < |points| / 2 =>
      Interval(points[2 * k], if points[2 * k + 1] == UINT32_MAX then infinity else points[2 * k + 1] - 1))
  }

  predicate SingleChar(i: Instr)
  {
    i.Char? || i.Char32? || i.Dot? || i.Any? || i.Range? || i.Range32?
  }

  predicate Assertion(i: Instr) { i.LineStart? || i.LineEnd? || i.WordBoundary? }

  /** re_is_simple_quantifier: the number of characters of a straight-line atom, -1 for any other. */
  function SimpleLength(ins: seq<Instr>): (n: int)
    ensures n >= -1
  {
    if ins == [] then 0 else
    var rest := SimpleLength(ins[1..]);
    if rest < 0 then -1
    else if SingleChar(ins[0]) then 1 + rest
    else if Assertion(ins[0]) then rest
    else -1
  }

  /** Instructions whose effect on the position re_need_check_advance can predict. */
  predicate Predictable(i: Instr)
  {
    SingleChar(i) || Assertion(i) || i.PushI32? || i.PushCharPos? || i.Drop? ||
    i.SaveStart? || i.SaveEnd? || i.SaveReset? || i.BackReference?
  }

  datatype Motion = Unknown | Still | Moving

  /** What the scan of re_need_check_advance learns about the position. */
  function Scan(ins: seq<Instr>): Motion
  {
    if ins == [] then Still else Both(MotionOf(ins[0]), Scan(ins[1..]))
  }

  function MotionOf(i: Instr): Motion
  {
    if SingleChar(i) then Moving else if Predictable(i) then Still else Unknown
  }

  function Both(a: Motion, b: Motion): Motion
  {
    if a.Unknown? || b.Unknown? then Unknown else if a.Moving? then Moving else b
  }

  /** re_need_check_advance: false only when the code always advances. */
  predicate NeedCheckAdvance(ins: seq<Instr>) { Scan(ins) != Moving }

  /** One guarded round of an atom. */
  function Round(a: seq<Instr>, check: bool): seq<Instr>
  {
    if check then [PushCharPos] + a + [CheckAdvance] else a
  }

  function RoundSize(a: seq<Instr>, check: bool): nat { SizeAll(a) + 2 * Flag(check) }

  /** Up to `left` more rounds, each behind a choice point. */
  function LoopCode(a: seq<Instr>, check: bool, left: Count, greedy: bool): seq<Instr>
  {
    var n := RoundSize(a, check);
    match left
    case Unlimited => [Split(greedy, n + 5)] + (Round(a, check) + [Goto(-(n + 10))])
    case Times(0) => []
    case Times(k) => [PushI32(k)] + ([Split(greedy, n + 5)] + (Round(a, check) + [Loop(-(n + 10)), Drop]))
  }

  function ResetCode(cc: nat, groups: nat): seq<Instr>
  {
    if groups > 0 then [SaveReset(cc, cc + groups - 1)] else []
  }

  predicate UsesSimpleQuant(a: seq<Instr>, max: nat, greedy: bool)
  {
    greedy && max > 0 && SimpleLength(a) > 0
  }

  /** The quantifier part of re_parse_term, applied to the code `a` of an atom. */
  function RepeatCode(a: seq<Instr>, cc: nat, groups: nat, min: nat, max: nat, greedy: bool): seq<Instr>
  {
    var check := NeedCheckAdvance(a);
    var n := RoundSize(a, check);
    if UsesSimpleQuant(a, max, greedy) then
      [SimpleGreedyQuant(SizeAll(a) + 1, min, max, SimpleLength(a))] + (a + [Match])
    else if min == 0 then
      ResetCode(cc, groups) +
      (if max == 1 then [Split(greedy, n)] + Round(a, check) else LoopCode(a, check, Extra(0, max), greedy))
    else if min == 1 && max == INT32_MAX && !check then
      a + [Split(!greedy, -(n + 5))]
    else
      (if min == 1 then a else [PushI32(min)] + (a + [Loop(-(SizeAll(a) + 5)), Drop])) +
      LoopCode(a, check, Extra(min, max), greedy)
  }

  function AlternateCode(x: seq<Instr>, y: seq<Instr>): seq<Instr>
  {
    [Split(true, SizeAll(x) + 5)] + (x + ([Goto(SizeAll(y))] + y))
  }

  function GroupCode(cc: nat, x: seq<Instr>): seq<Instr> { [SaveStart(cc)] + (x + [SaveEnd(cc)]) }

  function LookCode(negated: bool, x: seq<Instr>): seq<Instr>
  {
    [Lookahead(negated, SizeAll(x) + 1)] + (x + [Match])
  }

  function Code(canon: Canon, r: Regex, cc: nat): seq<Instr>
  {
    match r
    case Empty => []
    case Literal(c, icase) => LiteralCode(canon, c, icase)
    case AnyChar(dotAll) => [if dotAll then Any else Dot]
    case Class(points, icase) => ClassCode(points, icase)
    case Begin(multi) => [LineStart(multi)]
    case End(multi) => [LineEnd(multi)]
    case Boundary(negated, icase) => [WordBoundary(negated, icase)]
    case Backref(n, icase) => [BackReference(n, icase)]
    case Concat(a, b) => Code(canon, a, cc) + Code(canon, b, cc + Groups(a))
    case Alternate(a, b) => AlternateCode(Code(canon, a, cc), Code(canon, b, cc + Groups(a)))
    case Group(a) => GroupCode(cc, Code(canon, a, cc + 1))
    case Look(negated, a) => LookCode(negated, Code(canon, a, cc))
    case Repeat(a, times, greedy) =>
      RepeatCode(Code(canon, a, cc), cc, Groups(a), times.min, times.max, greedy)
  }
}
