// What the smallest patterns mean, said of the characters of the text alone.
module Characters {
  import opened Bytecode
  import opened Subjects
  import opened PointSets
  import opened Regex

  /** The characters of a stretch of text, one GET_CHAR after the other. */
  function CharsOf(s: Subject, from: nat, to: nat): (cs: seq<CodePoint>)
    requires to <= |s.units|
    ensures from < to <==> cs != []
    decreases if from < to then to - from else 0
  {
    if from >= to then [] else
      var (c, next) := GetChar(s, from, to);
      [c] + CharsOf(s, next, to)
  }

  // ---------- the characters of a text ----------

  /** The UTF-16 form of a list of code points: section 3.9 of the Unicode Standard. */
  function Utf16Form(cs: seq<CodePoint>): seq<CodeUnit>
  {
    if cs == [] then [] else
      var c := cs[0];
      (if c < 0x10000 then [c] else [0xD800 + (c - 0x10000) / 0x400, 0xDC00 + (c - 0x10000) % 0x400]) + Utf16Form(cs[1..])
  }

  /** No lone high surrogate in front of a lone low one. */
  predicate Separated(cs: seq<CodePoint>)
  {
    forall i :: 0 <= i < |cs| - 1 ==> !(0xD800 <= cs[i] <= 0xDBFF && 0xDC00 <= cs[i + 1] <= 0xDFFF)
  }

  /** The characters of UTF-16 text are the code points that it encodes. */
  lemma {:induction false} CharsOfUtf16(s: Subject, from: nat, to: nat)
    requires s.enc.Utf16? && from <= to <= |s.units|
    ensures Utf16Form(CharsOf(s, from, to)) == s.units[from..to] && Separated(CharsOf(s, from, to))
    decreases if from < to then to - from else 0
  {
    if from < to {
      var (c, next) := GetChar(s, from, to);
      var rest := CharsOf(s, next, to);
      CharsOfUtf16(s, next, to);
      assert CharsOf(s, from, to)[1..] == rest;
      assert s.units[from..to] == s.units[from..next] + s.units[next..to];
      SurrogateHalves(s, from, to);
    }
  }

  lemma SurrogateHalves(s: Subject, p: nat, to: nat)
    requires s.enc.Utf16? && p < to <= |s.units|
    ensures var (c, next) := GetChar(s, p, to);
            s.units[p..next] == if c < 0x10000 then [c] else [0xD800 + (c - 0x10000) / 0x400, 0xDC00 + (c - 0x10000) % 0x400]
    ensures var (c, next) := GetChar(s, p, to);
            0xD800 <= c <= 0xDBFF && next < to ==> !(0xDC00 <= GetChar(s, next, to).0 <= 0xDFFF)
  {
  }

  /** In the other encodings every unit is a character. */
  lemma {:induction false} CharsOfUnits(s: Subject, from: nat, to: nat)
    requires !s.enc.Utf16? && from <= to <= |s.units|
    ensures CharsOf(s, from, to) == s.units[from..to]
    decreases if from < to then to - from else 0
  {
    if from < to {
      CharsOfUnits(s, from + 1, to);
    }
  }

  /** Looking only as far as `to` does not change the first character, unless `to` cuts it. */
  lemma FirstChar(s: Subject, p: nat, to: nat)
    requires p < to <= |s.units| && GetChar(s, p, |s.units|).1 <= to
    ensures var (c, next) := GetChar(s, p, |s.units|); CharsOf(s, p, to) == [c] + CharsOf(s, next, to)
  {
  }

  /** PEEK_PREV_CHAR sees the character that GET_CHAR has just read. */
  lemma PeekPrevSeesChar(s: Subject, p: nat)
    requires p < |s.units| && Aligned(s, p)
    ensures var (c, next) := GetChar(s, p, |s.units|); PeekPrevChar(s, next) == c
  {
    PrevUndoesGet(s, p);
  }

  lemma NextBefore(s: Subject, p: nat, to: nat)
    requires p < to <= |s.units| && Aligned(s, to)
    ensures GetChar(s, p, |s.units|).1 <= to
  {
  }

  /** The character before a position is the last one of the text up to it. */
  lemma {:induction false} LastChar(s: Subject, from: nat, to: nat)
    requires from < to <= |s.units| && Aligned(s, from) && Aligned(s, to)
    ensures CharsOf(s, from, to)[|CharsOf(s, from, to)| - 1] == PeekPrevChar(s, to)
    decreases if from < to then to - from else 0
  {
    NextBefore(s, from, to);
    FirstChar(s, from, to);
    var next := GetChar(s, from, |s.units|).1;
    if next < to {
      NextAligned(s, from);
      LastChar(s, next, to);
    } else {
      PeekPrevSeesChar(s, from);
    }
  }

  // ---------- one character ----------

  const LINE_TERMINATORS := "\n\r\U{2028}\U{2029}"

  predicate WordCharacter(c: int)
  {
    'A' as int <= c <= 'Z' as int || 'a' as int <= c <= 'z' as int || '0' as int <= c <= '9' as int || c == '_' as int
  }

  predicate Listed(chars: string, c: int) { exists i :: 0 <= i < |chars| && chars[i] as int == c }

  lemma LineTerminatorIs(c: int)
    ensures IsLineTerminator(c) <==> Listed(LINE_TERMINATORS, c)
  {
    var t := LINE_TERMINATORS;
    assert t[0] as int == 10 && t[1] as int == 13 && t[2] as int == 0x2028 && t[3] as int == 0x2029;
  }

  lemma WordCharacterIs(c: int)
    ensures IsWordChar(c) <==> WordCharacter(c)
  {
  }

  /** Is `c` one of the characters that `r` stands for? */
  predicate StandsFor(s: Subject, r: Regex, c: CodePoint)
    requires IsChar(r)
  {
    match r
    case Literal(d, icase) => if icase then s.canon(c) == s.canon(d) else c == d
    case AnyChar(dotAll) => dotAll || !Listed(LINE_TERMINATORS, c)
    case Class(points, icase) => InPoints(points, if icase then s.canon(c) else c)
  }

  /** A pattern for one character matches exactly when it stands for the next one, and consumes that. */
  lemma CharMeaning(s: Subject, r: Regex, cc: nat, st: State)
    requires Good(s, st) && IsChar(r)
    ensures var rest := CharsOf(s, st.pos, |s.units|);
            if rest != [] && StandsFor(s, r, rest[0])
            then exists q: nat :: Matches(s, r, cc, st) == [st.(pos := q)] && st.pos < q <= |s.units| && CharsOf(s, q, |s.units|) == rest[1..]
            else Matches(s, r, cc, st) == []
  {
    hide IsLineTerminator;
    if st.pos < |s.units| {
      var (c, next) := GetChar(s, st.pos, |s.units|);
      assert CharsOf(s, st.pos, |s.units|) == [c] + CharsOf(s, next, |s.units|);
      LineTerminatorIs(c);
      assert Accepts(s, r, c) == StandsFor(s, r, c);
    }
  }

  // ---------- assertions ----------

  function Folded(s: Subject, icase: bool, cs: seq<CodePoint>): seq<CodePoint>
  {
    if icase then seq<CodePoint>(|cs|, i requires 0 <= i < |cs| => s.canon(cs[i])) else cs
  }

  predicate EndsInTerminator(cs: seq<CodePoint>) { cs != [] && Listed(LINE_TERMINATORS, cs[|cs| - 1]) }
  predicate BeginsWithTerminator(cs: seq<CodePoint>) { cs != [] && Listed(LINE_TERMINATORS, cs[0]) }
  predicate EndsInWord(cs: seq<CodePoint>) { cs != [] && WordCharacter(cs[|cs| - 1]) }
  predicate BeginsWithWord(cs: seq<CodePoint>) { cs != [] && WordCharacter(cs[0]) }

  /** Does the assertion hold between the characters `before` and `after`? */
  predicate HoldsBetween(s: Subject, r: Regex, before: seq<CodePoint>, after: seq<CodePoint>)
    requires IsAssertion(r)
  {
    match r
    case Begin(multi) => before == [] || (multi && EndsInTerminator(before))
    case End(multi) => after == [] || (multi && BeginsWithTerminator(after))
    case Boundary(negated, icase) =>
      negated <==> (EndsInWord(Folded(s, icase, before)) <==> BeginsWithWord(Folded(s, icase, after)))
  }

  /** An assertion holds at a position by the characters on both sides, and consumes nothing. */
  lemma AssertionMeaning(s: Subject, r: Regex, cc: nat, st: State)
    requires Good(s, st) && IsAssertion(r)
    ensures Matches(s, r, cc, st) ==
            if HoldsBetween(s, r, CharsOf(s, 0, st.pos), CharsOf(s, st.pos, |s.units|)) then [st] else []
  {
    hide IsLineTerminator, IsWordChar, WordCharacter, Listed, PeekPrevChar, GetChar;
    var before, after := CharsOf(s, 0, st.pos), CharsOf(s, st.pos, |s.units|);
    var icase := r.Boundary? && r.icase;
    if st.pos > 0 {
      LastChar(s, 0, st.pos);
      var c := PeekPrevChar(s, st.pos);
      assert Folded(s, icase, before)[|before| - 1] == Fold(s, icase, c);
      LineTerminatorIs(c);
      WordCharacterIs(Fold(s, icase, c));
    }
    if st.pos < |s.units| {
      var c := PeekChar(s, st.pos);
      assert after[0] == c && Folded(s, icase, after)[0] == Fold(s, icase, c);
      LineTerminatorIs(c);
      WordCharacterIs(Fold(s, icase, c));
    }
  }

  // ---------- back references ----------

  /** The text at `p` is repeated exactly when the folded characters are a prefix of those that follow. */
  lemma {:induction false} RepeatMeaning(s: Subject, from: nat, to: nat, p: nat, icase: bool)
    requires to <= |s.units| && p <= |s.units|
    ensures var group, rest := CharsOf(s, from, to), CharsOf(s, p, |s.units|);
            var q := RepeatEnd(s, from, to, p, icase);
            ((q >= 0 <==> Folded(s, icase, group) <= Folded(s, icase, rest)) &&
            (q >= 0 ==> |group| <= |rest| && CharsOf(s, p, q) == rest[..|group|] && CharsOf(s, q, |s.units|) == rest[|group|..]))
    decreases if from < to then to - from else 0
  {
    hide GetChar;
    var group, rest := CharsOf(s, from, to), CharsOf(s, p, |s.units|);
    if from < to && p < |s.units| {
      var (c1, from') := GetChar(s, from, to);
      var (c2, p') := GetChar(s, p, |s.units|);
      RepeatMeaning(s, from', to, p', icase);
      var group', rest' := CharsOf(s, from', to), CharsOf(s, p', |s.units|);
      PrefixStep(s, icase, c1, group', c2, rest');
      assert group == [c1] + group' && rest == [c2] + rest';
      var q := RepeatEnd(s, from', to, p', icase);
      if q >= 0 {
        FirstChar(s, p, q);
      }
    }
  }

  lemma PrefixStep(s: Subject, icase: bool, c1: CodePoint, cs1: seq<CodePoint>, c2: CodePoint, cs2: seq<CodePoint>)
    ensures Folded(s, icase, [c1] + cs1) <= Folded(s, icase, [c2] + cs2) <==>
            Fold(s, icase, c1) == Fold(s, icase, c2) && Folded(s, icase, cs1) <= Folded(s, icase, cs2)
  {
    var l, r := Folded(s, icase, cs1), Folded(s, icase, cs2);
    assert Folded(s, icase, [c1] + cs1) == [Fold(s, icase, c1)] + l;
    assert Folded(s, icase, [c2] + cs2) == [Fold(s, icase, c2)] + r;
    var ll, rr := [Fold(s, icase, c1)] + l, [Fold(s, icase, c2)] + r;
    assert ll[0] == Fold(s, icase, c1) && rr[0] == Fold(s, icase, c2) && ll[1..] == l && rr[1..] == r;
    if ll <= rr {
      assert forall i :: 0 <= i < |l| ==> l[i] == ll[i + 1] == rr[i + 1] == r[i];
    }
  }

  /** A back reference to a group that is not set matches the empty string; otherwise it consumes the characters of the
      group, in any case when case is ignored, and matches only if they come next. */
  lemma BackrefMeaning(s: Subject, n: GroupIndex, icase: bool, cc: nat, st: State)
    requires Good(s, st)
    ensures 2 * n + 1 >= |st.caps| ==> Matches(s, Backref(n, icase), cc, st) == []
    ensures 2 * n + 1 < |st.caps| ==>
            var xs := Matches(s, Backref(n, icase), cc, st);
            var from, to := st.caps[2 * n], st.caps[2 * n + 1];
            if from == -1 || to == -1 then xs == [st]
            else
              var group, rest := CharsOf(s, from, to), CharsOf(s, st.pos, |s.units|);
              if Folded(s, icase, group) <= Folded(s, icase, rest)
              then exists q: nat :: xs == [st.(pos := q)] && st.pos <= q <= |s.units| && |group| <= |rest| &&
                                    CharsOf(s, st.pos, q) == rest[..|group|] && CharsOf(s, q, |s.units|) == rest[|group|..]
              else xs == []
  {
    hide RepeatEnd;
    if 2 * n + 1 < |st.caps| {
      var from, to := st.caps[2 * n], st.caps[2 * n + 1];
      if from >= 0 && to >= 0 {
        RepeatMeaning(s, from, to, st.pos, icase);
      }
    }
  }
}
