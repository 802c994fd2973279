// The encoding that the compressed Unicode tables are in, and what a table says of the runs it was made from.
module RunLengths {
  import opened Bytecode
  import opened UnicodeTables

  /** One or two runs in one of the four forms: two of at most 8, or one of 7, 13 or 21 bits; lengths are stored less one. */
  datatype Piece = Packed(a: nat, b: nat) | Bits7(n: nat) | Bits13(n: nat) | Bits21(n: nat)

  predicate Encodable(x: Piece)
  {
    match x
    case Packed(a, b) => 1 <= a <= 8 && 1 <= b <= 8
    case Bits7(n) => 1 <= n <= 0x80
    case Bits13(n) => 1 <= n <= 0x2000
    case Bits21(n) => 1 <= n <= 0x20_0000
  }

  predicate AllEncodable(ps: seq<Piece>) { forall i :: 0 <= i < |ps| ==> Encodable(ps[i]) }

  /** The bytes of a piece, the high ones first. */
  function Bytes(x: Piece): seq<Byte>
    requires Encodable(x)
  {
    match x
    case Packed(a, b) => [(a - 1) * 8 + (b - 1)]
    case Bits7(n) => [0x80 + (n - 1)]
    case Bits13(n) => [0x40 + (n - 1) / 0x100, (n - 1) % 0x100]
    case Bits21(n) => [0x60 + (n - 1) / 0x1_0000, (n - 1) / 0x100 % 0x100, (n - 1) % 0x100]
  }

  function Encoded(ps: seq<Piece>): seq<Byte>
    requires AllEncodable(ps)
  {
    if ps == [] then [] else Bytes(ps[0]) + Encoded(ps[1..])
  }

  function RunsOf(x: Piece): seq<nat>
  {
    match x
    case Packed(a, b) => [a, b]
    case Bits7(n) => [n]
    case Bits13(n) => [n]
    case Bits21(n) => [n]
  }

  function Runs(ps: seq<Piece>): seq<nat>
  {
    if ps == [] then [] else RunsOf(ps[0]) + Runs(ps[1..])
  }

  /** Where run number `k` begins. */
  function RunStart(runs: seq<nat>, k: nat): nat
    requires k <= |runs|
  {
    if k == 0 then 0 else runs[0] + RunStart(runs[1..], k - 1)
  }

  /** Run number `k` contains `x`. */
  predicate InRun(runs: seq<nat>, k: int, x: int)
  {
    0 <= k < |runs| && RunStart(runs, k) <= x < RunStart(runs, k + 1)
  }

  /** `x` is in a run of odd number, or of even number. */
  ghost predicate InOddRun(runs: seq<nat>, odd: bool, x: int)
  {
    exists k :: InRun(runs, k, x) && (k % 2 == 1) == odd
  }

  lemma NextRun(runs: seq<nat>, k: int, x: int)
    requires runs != [] && k > 0
    ensures InRun(runs, k, x) <==> InRun(runs[1..], k - 1, x - runs[0])
  {
    if k < |runs| {
      assert RunStart(runs, k) == runs[0] + RunStart(runs[1..], k - 1);
      assert RunStart(runs, k + 1) == runs[0] + RunStart(runs[1..], k);
    }
  }

  lemma Shorter(runs: seq<nat>, odd: bool, x: int)
    requires runs != [] && runs[0] <= x
    ensures InOddRun(runs, odd, x) <==> InOddRun(runs[1..], !odd, x - runs[0])
  {
    assert !InRun(runs, 0, x) by {
      assert RunStart(runs, 1) == runs[0] + RunStart(runs[1..], 0);
    }
    hide InRun;
    if InOddRun(runs, odd, x) {
      var k :| InRun(runs, k, x) && (k % 2 == 1) == odd;
      InRunIndex(runs, k, x);
      NextRun(runs, k, x);
      assert InRun(runs[1..], k - 1, x - runs[0]);
    }
    if InOddRun(runs[1..], !odd, x - runs[0]) {
      var k :| InRun(runs[1..], k, x - runs[0]) && (k % 2 == 1) == !odd;
      InRunIndex(runs[1..], k, x - runs[0]);
      NextRun(runs, k + 1, x);
      assert InRun(runs, k + 1, x);
    }
  }

  lemma InRunIndex(runs: seq<nat>, k: int, x: int)
    requires InRun(runs, k, x)
    ensures 0 <= k < |runs|
  {
  }

  lemma FirstRun(runs: seq<nat>, odd: bool, x: int)
    requires runs != [] && 0 <= x < runs[0]
    ensures InOddRun(runs, odd, x) <==> !odd
  {
    assert RunStart(runs, 1) == runs[0] + RunStart(runs[1..], 0);
    assert InRun(runs, 0, x);
    forall k | 0 < k < |runs| ensures !InRun(runs, k, x) {
      assert RunStart(runs, k) == runs[0] + RunStart(runs[1..], k - 1);
    }
  }

  lemma NoRun(odd: bool, x: int)
    ensures !InOddRun([], odd, x)
  {
  }

  /** The bytes of a piece are read as its runs. */
  lemma ReadsPiece(table: seq<Byte>, p: nat, x: Piece, rest: seq<Byte>)
    requires Encodable(x) && p <= |table| && table[p..] == Bytes(x) + rest
    ensures Complete(table, p) && table[p + |Bytes(x)|..] == rest
    ensures var t := TokenAt(table, p);
            t.size == |Bytes(x)| && RunsOf(x) == if t.second > 0 then [t.first, t.second] else [t.first]
  {
    var bs := Bytes(x);
    assert table[p + |bs|..] == table[p..][|bs|..];
    assert forall i :: 0 <= i < |bs| ==> table[p + i] == table[p..][i] == bs[i];
    assert table[p] == bs[0];
    if |bs| > 1 {
      assert table[p + 1] == bs[1];
    }
    if |bs| > 2 {
      assert table[p + 2] == bs[2];
    }
    SplitBytes(x);
  }

  lemma SplitBytes(x: Piece)
    requires Encodable(x)
    ensures x.Packed? ==> var b := (x.a - 1) * 8 + (x.b - 1); b / 8 + 1 == x.a && b % 8 + 1 == x.b && b < 0x40
    ensures x.Bits21? ==> ((x.n - 1) / 0x1_0000 * 0x100 + (x.n - 1) / 0x100 % 0x100) * 0x100 + (x.n - 1) % 0x100 + 1 == x.n
  {
  }

  /** An encoded table is whole tokens, ends where the runs end, and has the runs of odd number as members. */
  lemma {:induction false} EncodedMember(table: seq<Byte>, p: nat, ps: seq<Piece>, code: nat, bit: bool, x: int)
    requires AllEncodable(ps) && p <= |table| && table[p..] == Encoded(ps) && code <= x
    ensures WholeTokens(table, p)
    ensures Total(table, p, code) == code + RunStart(Runs(ps), |Runs(ps)|)
    ensures Member(table, p, code, bit, x) <==> InOddRun(Runs(ps), !bit, x - code)
    decreases |ps|
  {
    hide InOddRun, TokenAt, Complete, RunStart, Bytes;
    if ps == [] {
      NoRun(!bit, x - code);
      StartNone([]);
    } else {
      ReadsPiece(table, p, ps[0], Encoded(ps[1..]));
      var t := TokenAt(table, p);
      var end := code + t.first + t.second;
      var rest := Runs(ps[1..]);
      PieceRuns(RunsOf(ps[0]), rest);
      WholeStep(table, p);
      if end <= x {
        EncodedMember(table, p + t.size, ps[1..], end, Flip(t, bit), x);
      } else {
        EncodedMember(table, p + t.size, ps[1..], end, Flip(t, bit), end);
      }
      PieceMember(t, rest, code, bit, x);
    }
  }

  lemma StartNone(runs: seq<nat>)
    ensures RunStart(runs, 0) == 0
  {
  }

  lemma WholeStep(table: seq<Byte>, p: nat)
    requires Complete(table, p)
    ensures WholeTokens(table, p) <==> WholeTokens(table, p + TokenAt(table, p).size)
  {
    hide TokenAt, Complete;
  }

  lemma OneRun(a: nat, rest: seq<nat>)
    ensures RunStart([a] + rest, |[a] + rest|) == a + RunStart(rest, |rest|)
  {
    assert ([a] + rest)[1..] == rest;
  }

  lemma PieceRuns(r: seq<nat>, rest: seq<nat>)
    requires 1 <= |r| <= 2
    ensures RunStart(r + rest, |r + rest|) == r[0] + (if |r| == 2 then r[1] else 0) + RunStart(rest, |rest|)
  {
    hide RunStart;
    if |r| == 2 {
      OneRun(r[1], rest);
      assert r + rest == [r[0]] + ([r[1]] + rest);
      OneRun(r[0], [r[1]] + rest);
    } else {
      assert r == [r[0]];
      OneRun(r[0], rest);
    }
  }

  /** One token against the runs it stands for. */
  lemma PieceMember(t: Token, rest: seq<nat>, code: nat, bit: bool, x: int)
    requires t.first > 0 && code <= x
    ensures var runs := (if t.second > 0 then [t.first, t.second] else [t.first]) + rest;
            var end := code + t.first + t.second;
            InOddRun(runs, !bit, x - code) ==
            if x < code + t.first then bit else if x < end then !bit else InOddRun(rest, !Flip(t, bit), x - end)
  {
    hide InOddRun;
    var runs := (if t.second > 0 then [t.first, t.second] else [t.first]) + rest;
    if x < code + t.first {
      FirstRun(runs, !bit, x - code);
    } else {
      Shorter(runs, !bit, x - code);
      if t.second > 0 {
        assert runs[1..] == [t.second] + rest;
        if x < code + t.first + t.second {
          FirstRun(runs[1..], bit, x - code - t.first);
        } else {
          Shorter(runs[1..], bit, x - code - t.first);
          assert runs[1..][1..] == rest;
        }
      } else {
        assert runs[1..] == rest;
      }
    }
  }

  /** What an encoded table says: it has exactly the code points of the runs of odd number, and ends where they end. */
  lemma TableMeaning(ps: seq<Piece>, x: nat)
    requires AllEncodable(ps)
    ensures WholeTokens(Encoded(ps), 0) && Total(Encoded(ps), 0, 0) == RunStart(Runs(ps), |Runs(ps)|)
    ensures Member(Encoded(ps), 0, 0, false, x) <==> exists k :: InRun(Runs(ps), k, x) && k % 2 == 1
  {
    hide Encoded, Member, Total, WholeTokens;
    assert Encoded(ps)[0..] == Encoded(ps);
    EncodedMember(Encoded(ps), 0, ps, 0, false, x);
  }

  /** Every list of positive run lengths of at most 21 bits has an encoding. */
  function PiecesOf(runs: seq<nat>): (ps: seq<Piece>)
    requires forall i :: 0 <= i < |runs| ==> 1 <= runs[i] <= 0x20_0000
    ensures AllEncodable(ps) && Runs(ps) == runs
  {
    if runs == [] then [] else
      var n := runs[0];
      var x := if n <= 0x80 then Bits7(n) else if n <= 0x2000 then Bits13(n) else Bits21(n);
      assert runs == [n] + runs[1..];
      [x] + PiecesOf(runs[1..])
  }

  /** Every table of whole tokens is the encoding of some runs. */
  lemma {:induction false} TableIsEncoded(table: seq<Byte>, p: nat) returns (ps: seq<Piece>)
    requires p <= |table| && WholeTokens(table, p)
    ensures AllEncodable(ps) && Encoded(ps) == table[p..]
    decreases |table| - p
  {
    if p == |table| {
      ps := [];
    } else {
      var x := PieceAt(table, p);
      var rest := TableIsEncoded(table, p + |Bytes(x)|);
      ps := [x] + rest;
      assert ps[1..] == rest;
      assert table[p..] == table[p..p + |Bytes(x)|] + table[p + |Bytes(x)|..];
    }
  }

  lemma PieceAt(table: seq<Byte>, p: nat) returns (x: Piece)
    requires Complete(table, p)
    ensures Encodable(x) && |Bytes(x)| == TokenAt(table, p).size && p + |Bytes(x)| <= |table| && table[p..p + |Bytes(x)|] == Bytes(x)
  {
    var b: int := table[p];
    if b < 0x40 {
      x := Packed(b / 8 + 1, b % 8 + 1);
    } else if b >= 0x80 {
      x := Bits7(b - 0x80 + 1);
    } else if b < 0x60 {
      x := Bits13((b - 0x40) * 0x100 + table[p + 1] as int + 1);
    } else {
      x := LongPiece(b, table[p + 1], table[p + 2]);
    }
  }

  lemma LongPiece(b: int, c: Byte, d: Byte) returns (x: Piece)
    requires 0x60 <= b < 0x80
    ensures Encodable(x) && Bytes(x) == [b, c, d]
  {
    var h, w: int := b - 0x60, (b - 0x60) * 0x100 + c as int;
    var v := w * 0x100 + d as int;
    LowByte(v, w, d);
    LowByte(w, h, c);
    HighPart(v, h, c as int * 0x100 + d as int);
    x := Bits21(v + 1);
  }

  lemma LowByte(v: int, w: int, d: Byte)
    requires v == w * 0x100 + d as int
    ensures v / 0x100 == w && v % 0x100 == d
  {
  }

  lemma HighPart(v: int, h: int, r: int)
    requires v == h * 0x1_0000 + r && 0 <= r < 0x1_0000
    ensures v / 0x1_0000 == h
  {
  }

  // ---------- index entries ----------

  /** An index entry: 21 bits of code point and above them 3 bits of offset, the low byte first. */
  function EntryBytes(code: nat, offset: nat): seq<Byte>
    requires code < 0x20_0000 && offset < 8
  {
    [code % 0x100, code / 0x100 % 0x100, code / 0x1_0000 + 32 * offset]
  }

  /** An entry is read as the code point and the place in the table that it was made from. */
  lemma EntryMeaning(index: seq<Byte>, k: nat, code: nat, offset: nat)
    requires 3 * k + 3 <= |index| && code < 0x20_0000 && offset < 8 && index[3 * k..3 * k + 3] == EntryBytes(code, offset)
    ensures EntryCode(index, k) == code && EntryPos(index, k) == 32 * (k + 1) + offset
  {
    var e := index[3 * k..3 * k + 3];
    assert index[3 * k] == e[0] && index[3 * k + 1] == e[1] && index[3 * k + 2] == e[2];
    assert GetLe24(index, k) == code + offset * 0x20_0000;
  }
}
