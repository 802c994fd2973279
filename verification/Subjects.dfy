// The text being searched and the macros that step over its characters.
module Subjects {
  import opened Bytecode

  type CodeUnit = x: int | 0 <= x < 0x1_0000

  // cbuf_type: 0 = 8-bit characters, 1 = 16-bit characters, 2 = UTF-16
  datatype Encoding = Units8 | Units16 | Utf16

  /** `canon` stands for lre_canonicalize under the flags of the pattern. */
  datatype Subject = Subject(units: seq<CodeUnit>, enc: Encoding, canon: CodePoint -> CodePoint)

  predicate IsHi(c: int) { 0xD800 <= c < 0xDC00 }
  predicate IsLo(c: int) { 0xDC00 <= c < 0xE000 }

  function FromSurrogate(hi: int, lo: int): CodePoint
    requires IsHi(hi) && IsLo(lo)
  {
    0x10000 + 0x400 * (hi - 0xD800) + (lo - 0xDC00)
  }

  /** Two units at `p` form one character when text up to `end` is visible. */
  predicate PairAt(s: Subject, p: int, end: int)
  {
    s.enc.Utf16? && 0 <= p && p + 1 < end <= |s.units| && IsHi(s.units[p]) && IsLo(s.units[p + 1])
  }

  /** GET_CHAR: the character at `p` and the position after it. */
  function GetChar(s: Subject, p: nat, end: nat): (r: (CodePoint, nat))
    requires p < end <= |s.units|
    ensures p < r.1 <= end
  {
    if PairAt(s, p, end) then (FromSurrogate(s.units[p], s.units[p + 1]), p + 2) else (s.units[p], p + 1)
  }

  /** PEEK_CHAR */
  function PeekChar(s: Subject, p: nat): CodePoint
    requires p < |s.units|
  {
    GetChar(s, p, |s.units|).0
  }

  /** PREV_CHAR */
  function PrevPos(s: Subject, p: nat): (q: nat)
    requires 0 < p <= |s.units|
    ensures q < p
  {
    if s.enc.Utf16? && IsLo(s.units[p - 1]) && p - 1 > 0 && IsHi(s.units[p - 2]) then p - 2 else p - 1
  }

  /** PEEK_PREV_CHAR */
  function PeekPrevChar(s: Subject, p: nat): CodePoint
    requires 0 < p <= |s.units|
  {
    var q := PrevPos(s, p);
    if q + 2 == p then FromSurrogate(s.units[q], s.units[p - 1]) else s.units[p - 1]
  }

  /** A position that does not fall between the two halves of a surrogate pair. */
  predicate Aligned(s: Subject, p: int)
  {
    0 <= p <= |s.units| && !PairAt(s, p - 1, |s.units|)
  }

  /** Stepping forward never lands inside a pair, unless it started there. */
  lemma NextAligned(s: Subject, p: nat)
    requires p < |s.units|
    ensures Aligned(s, p) ==> Aligned(s, GetChar(s, p, |s.units|).1)
  {
    if p > 0 && PairAt(s, p - 1, |s.units|) {
      assert !Aligned(s, p);
    }
  }

  /** PREV_CHAR undoes GET_CHAR at a position exactly when it is not inside a pair. */
  lemma PrevUndoesGet(s: Subject, p: nat)
    requires p < |s.units|
    ensures PrevPos(s, GetChar(s, p, |s.units|).1) == p <==> Aligned(s, p)
  {
    if !Aligned(s, p) {
      assert PairAt(s, p - 1, |s.units|);
      assert IsLo(s.units[p]) && !PairAt(s, p, |s.units|);
    }
  }

  function Fold(s: Subject, icase: bool, c: CodePoint): CodePoint
  {
    if icase then s.canon(c) else c
  }

  predicate IsLineTerminator(c: int) { c == 10 || c == 13 || c == 0x2028 || c == 0x2029 }

  predicate IsWordChar(c: int)
  {
    (48 <= c <= 57) || (97 <= c <= 122) || (65 <= c <= 90) || c == 95
  }

  predicate AtLineStart(s: Subject, p: nat, multi: bool)
    requires p <= |s.units|
  {
    p == 0 || (multi && IsLineTerminator(PeekPrevChar(s, p)))
  }

  predicate AtLineEnd(s: Subject, p: nat, multi: bool)
    requires p <= |s.units|
  {
    p == |s.units| || (multi && IsLineTerminator(PeekChar(s, p)))
  }

  predicate AtBoundary(s: Subject, p: nat, icase: bool)
    requires p <= |s.units|
  {
    var before := p > 0 && IsWordChar(Fold(s, icase, PeekPrevChar(s, p)));
    var after := p < |s.units| && IsWordChar(Fold(s, icase, PeekChar(s, p)));
    before != after
  }

  /** Where the text at `p` ends when it repeats the characters of [from, to); -1 when it does not. */
  function RepeatEnd(s: Subject, from: nat, to: nat, p: nat, icase: bool): (q: int)
    requires to <= |s.units| && p <= |s.units|
    ensures q == -1 || p <= q <= |s.units|
    ensures Aligned(s, p) && q >= 0 ==> Aligned(s, q)
    decreases if from < to then to - from else 0
  {
    if from >= to then p
    else if p >= |s.units| then -1
    else
      var (c1, from') := GetChar(s, from, to);
      var (c2, p') := GetChar(s, p, |s.units|);
      NextAligned(s, p);
      if Fold(s, icase, c1) != Fold(s, icase, c2) then -1 else RepeatEnd(s, from', to, p', icase)
  }

  /** One round of the loop over the characters of a group. */
  lemma RepeatStep(s: Subject, from: nat, to: nat, p: nat, icase: bool)
    requires to <= |s.units| && p <= |s.units|
    ensures from >= to ==> RepeatEnd(s, from, to, p, icase) == p
    ensures from < to && p >= |s.units| ==> RepeatEnd(s, from, to, p, icase) == -1
    ensures from < to && p < |s.units| ==>
              var c1, c2 := GetChar(s, from, to), GetChar(s, p, |s.units|);
              RepeatEnd(s, from, to, p, icase) ==
                if Fold(s, icase, c1.0) != Fold(s, icase, c2.0) then -1 else RepeatEnd(s, c1.1, to, c2.1, icase)
  {
  }
}
