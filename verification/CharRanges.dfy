// CharRange: sets of code points as sorted boundary points, and the operations of libunicode.c on them.
module PointSets {
  const UINT32_MAX := 0xFFFF_FFFF

  /** How many boundary points are at or below `x`. */
  function Below(s: seq<int>, x: int): nat
  {
    if s == [] then 0 else Below(s[..|s| - 1], x) + if s[|s| - 1] <= x then 1 else 0
  }

  /** Boundaries alternate between entering and leaving the set. */
  predicate In(s: seq<int>, x: int) { Below(s, x) % 2 == 1 }

  predicate Ordered(s: seq<int>)
  {
    forall i, j :: 0 <= i < j < |s| ==> s[i] <= s[j]
  }

  /** A character range: an even number of strictly increasing points [low, high) [low, high) ... */
  predicate Sorted(points: seq<int>)
  {
    forall i, j :: 0 <= i < j < |points| ==> points[i] < points[j]
  }

  predicate InPoints(points: seq<int>, c: int)
  {
    exists k :: 0 <= k < |points| / 2 && points[2 * k] <= c < points[2 * k + 1]
  }

  ghost predicate SameSet(s: seq<int>, t: seq<int>)
  {
    forall x :: In(s, x) <==> In(t, x)
  }

  /** The form every operation returns: intervals that neither touch nor are empty. */
  predicate Canonical(s: seq<int>) { |s| % 2 == 0 && Sorted(s) }

  lemma {:induction false} BelowAppend(s: seq<int>, t: seq<int>, x: int)
    ensures Below(s + t, x) == Below(s, x) + Below(t, x)
  {
    if t == [] {
      assert s + t == s;
    } else {
      assert (s + t)[..|s + t| - 1] == s + t[..|t| - 1];
      BelowAppend(s, t[..|t| - 1], x);
    }
  }

  lemma BelowPush(s: seq<int>, v: int, x: int)
    ensures Below(s + [v], x) == Below(s, x) + if v <= x then 1 else 0
  {
    assert (s + [v])[..|s|] == s;
  }

  lemma {:induction false} BelowAll(s: seq<int>, x: int)
    requires forall i :: 0 <= i < |s| ==> s[i] <= x
    ensures Below(s, x) == |s|
  {
    if s != [] {
      BelowAll(s[..|s| - 1], x);
    }
  }

  lemma {:induction false} BelowNone(s: seq<int>, x: int)
    requires forall i :: 0 <= i < |s| ==> x < s[i]
    ensures Below(s, x) == 0
  {
    if s != [] {
      BelowNone(s[..|s| - 1], x);
    }
  }

  lemma BelowTwo(a: int, b: int, x: int)
    ensures Below([a, b], x) == (if a <= x then 1 else 0) + (if b <= x then 1 else 0)
  {
    assert [a, b] == [a] + [b] && [a] == [] + [a];
    BelowPush([a], b, x);
    BelowPush([], a, x);
  }

  /** Membership of an interval, read off the points directly. */
  lemma {:induction false} InIsInterval(s: seq<int>, x: int)
    requires Ordered(s) && |s| % 2 == 0
    ensures In(s, x) <==> InPoints(s, x)
  {
    hide In;
    if s == [] {
      NotInEmpty(x);
    } else {
      var n := |s| - 2;
      var r := s[..n];
      assert s == r + [s[n], s[n + 1]];
      InIsInterval(r, x);
      LastInterval(s, r, n, x);
      InPointsLast(s, r, n, x);
    }
  }

  lemma NotInEmpty(x: int)
    ensures !In([], x)
  {
  }

  lemma LastInterval(s: seq<int>, r: seq<int>, n: nat, x: int)
    requires Ordered(s) && |s| == n + 2 && n % 2 == 0 && r == s[..n]
    ensures In(s, x) <==> if s[n] <= x then x < s[n + 1] else In(r, x)
  {
    assert s == r + [s[n], s[n + 1]];
    BelowAppend(r, [s[n], s[n + 1]], x);
    BelowTwo(s[n], s[n + 1], x);
    if s[n] <= x {
      BelowAll(r, x);
    }
  }

  lemma InPointsLast(s: seq<int>, r: seq<int>, n: nat, x: int)
    requires Ordered(s) && |s| == n + 2 && n % 2 == 0 && r == s[..n]
    ensures InPoints(s, x) <==> if s[n] <= x then x < s[n + 1] else InPoints(r, x)
  {
    if s[n] <= x {
      forall k | 0 <= k < n / 2 ensures !(s[2 * k] <= x < s[2 * k + 1]) {
        assert s[2 * k + 1] <= s[n];
      }
      assert s[2 * (n / 2)] == s[n];
    } else {
      if InPoints(r, x) {
        var k :| 0 <= k < |r| / 2 && r[2 * k] <= x < r[2 * k + 1];
        assert s[2 * k] <= x < s[2 * k + 1];
      }
      if InPoints(s, x) {
        var k :| 0 <= k < |s| / 2 && s[2 * k] <= x < s[2 * k + 1];
        assert k != n / 2;
        assert r[2 * k] <= x < r[2 * k + 1];
      }
    }
  }

  /** Two canonical boundary lists of the same set are the same list. */
  lemma {:induction false} CanonicalUnique(s: seq<int>, t: seq<int>)
    requires Canonical(s) && Canonical(t) && SameSet(s, t)
    ensures s == t
    decreases |s|
  {
    hide In;
    if s == [] || t == [] {
      EmptySet(s, t);
    } else {
      LastTwo(s, t);
      var s', t' := s[..|s| - 2], t[..|t| - 2];
      Peel(s, t, s', t', [s[|s| - 2], s[|s| - 1]]);
      CanonicalUnique(s', t');
      assert s == s' + [s[|s| - 2], s[|s| - 1]];
      assert t == t' + [t[|t| - 2], t[|t| - 1]];
    }
  }

  lemma EmptySet(s: seq<int>, t: seq<int>)
    requires Canonical(s) && Canonical(t) && SameSet(s, t) && (s == [] || t == [])
    ensures s == t
  {
    hide In;
    if s != [] {
      LastPoint(s, t);
    }
    if t != [] {
      LastPoint(t, s);
    }
  }

  lemma LastTwo(s: seq<int>, t: seq<int>)
    requires Canonical(s) && Canonical(t) && SameSet(s, t) && s != [] && t != []
    ensures s[|s| - 1] == t[|t| - 1] && s[|s| - 2] == t[|t| - 2]
  {
    hide In;
    if t[|t| - 1] > s[|s| - 1] {
      LastPoint(t, s);
    } else if s[|s| - 1] > t[|t| - 1] {
      LastPoint(s, t);
    } else if s[|s| - 2] < t[|t| - 2] {
      SecondLast(s, t);
    } else if t[|t| - 2] < s[|s| - 2] {
      SecondLast(t, s);
    }
  }

  lemma Peel(s: seq<int>, t: seq<int>, s': seq<int>, t': seq<int>, tail: seq<int>)
    requires SameSet(s, t) && s == s' + tail && t == t' + tail
    ensures SameSet(s', t')
  {
    forall x ensures In(s', x) <==> In(t', x) {
      BelowAppend(s', tail, x);
      BelowAppend(t', tail, x);
      assert In(s, x) <==> In(t, x);
    }
  }

  /** The last boundary point shows in the set. */
  lemma LastPoint(t: seq<int>, s: seq<int>)
    requires Canonical(t) && t != [] && |s| % 2 == 0
    requires forall i :: 0 <= i < |s| ==> s[i] < t[|t| - 1]
    ensures In(t, t[|t| - 1] - 1) && !In(s, t[|t| - 1] - 1)
  {
    var x := t[|t| - 1] - 1;
    var n := |t| - 1;
    assert t == t[..n] + [t[n]];
    BelowPush(t[..n], t[n], x);
    BelowAll(t[..n], x);
    BelowAll(s, x);
  }

  lemma SecondLast(s: seq<int>, t: seq<int>)
    requires Canonical(s) && Canonical(t) && s != [] && t != [] && s[|s| - 1] == t[|t| - 1] && s[|s| - 2] < t[|t| - 2]
    ensures In(s, t[|t| - 2] - 1) && !In(t, t[|t| - 2] - 1)
  {
    hide In;
    var x := t[|t| - 2] - 1;
    var n, k := |s| - 1, |t| - 2;
    OddPrefix(s, n, x);
    OddPrefix(t, k, x);
  }

  /** Where the first `n` points are at or below `x` and the others above. */
  lemma OddPrefix(s: seq<int>, n: nat, x: int)
    requires n <= |s| && (forall i :: 0 <= i < n ==> s[i] <= x) && (forall i :: n <= i < |s| ==> x < s[i])
    ensures In(s, x) <==> n % 2 == 1
  {
    assert s == s[..n] + s[n..];
    BelowAppend(s[..n], s[n..], x);
    BelowAll(s[..n], x);
    BelowNone(s[n..], x);
  }
}

module CharRanges {
  import opened PointSets

  /** CR_OP_* */
  datatype Op = Union | Inter | Xor | Sub

  /** Membership of the result by membership of the arguments. */
  predicate Apply(op: Op, a: bool, b: bool)
  {
    match op
    case Union => a || b
    case Inter => a && b
    case Xor => a != b
    case Sub => a && !b
  }

  /** The status after so many points of each list. */
  method Status(op: Op, aIdx: nat, bIdx: nat) returns (isIn: bool)
    ensures isIn == Apply(op, aIdx % 2 == 1, bIdx % 2 == 1)
  {
    match op
    case Union => isIn := aIdx % 2 == 1 || bIdx % 2 == 1;
    case Inter => isIn := aIdx % 2 == 1 && bIdx % 2 == 1;
    case Xor => isIn := (aIdx % 2 == 1) != (bIdx % 2 == 1);
    case Sub => isIn := aIdx % 2 == 1 && bIdx % 2 == 0;
  }

  /** Every point of `s` is at or below `v`. */
  predicate UpTo(s: seq<int>, v: int) { forall i :: 0 <= i < |s| ==> s[i] <= v }

  /** Every point of `s` is at or above `v`. */
  predicate From(s: seq<int>, v: int) { forall i :: 0 <= i < |s| ==> v <= s[i] }

  /** `c` denotes the result of the operation. */
  ghost predicate Denotes(op: Op, a: seq<int>, b: seq<int>, c: seq<int>)
  {
    forall x :: In(c, x) <==> Apply(op, In(a, x), In(b, x))
  }

  /** Consuming one point `v` from one list or both keeps the denotation, if the output toggles when the status does. */
  lemma OpStep(op: Op, a: seq<int>, a': seq<int>, b: seq<int>, b': seq<int>, c: seq<int>, c': seq<int>, v: int)
    requires Denotes(op, a, b, c) && UpTo(a, v) && UpTo(b, v) && UpTo(c, v)
    requires (a' == a || a' == a + [v]) && (b' == b || b' == b + [v])
    requires (c' == c || c' == c + [v]) && (|c'| % 2 == 1 <==> Apply(op, |a'| % 2 == 1, |b'| % 2 == 1))
    ensures Denotes(op, a', b', c') && UpTo(a', v) && UpTo(b', v) && UpTo(c', v)
  {
    forall x ensures In(c', x) <==> Apply(op, In(a', x), In(b', x)) {
      if v <= x {
        BelowAll(a', x);
        BelowAll(b', x);
        BelowAll(c', x);
      } else {
        BelowPush(a, v, x);
        BelowPush(b, v, x);
        BelowPush(c, v, x);
        assert In(c, x) <==> Apply(op, In(a, x), In(b, x));
      }
    }
  }

  lemma OpStart(op: Op)
    ensures Denotes(op, [], [], [])
  {
  }

  lemma OrderedPush(c: seq<int>, v: int)
    requires Ordered(c) && UpTo(c, v)
    ensures Ordered(c + [v])
  {
  }

  lemma NoPoints()
    ensures Ordered([]) && forall v :: UpTo([], v)
  {
  }

  lemma Taken(a: seq<int>, i: nat, i': nat, v: int)
    requires i <= i' <= |a| && (i' == i || (i' == i + 1 && a[i] == v))
    ensures i' == i + 1 ==> a[..i'] == a[..i] + [v] && v in a
  {
  }

  lemma Behind(a: seq<int>, i: nat)
    requires Ordered(a) && i <= |a|
    ensures i < |a| ==> UpTo(a[..i], a[i])
    ensures i + 1 < |a| ==> a[i] <= a[i + 1]
  {
  }

  lemma Later(a: seq<int>, i: nat, v: int, c: seq<int>)
    requires UpTo(c, v) && (i < |a| ==> v <= a[i])
    ensures i < |a| ==> UpTo(c, a[i])
  {
  }

  lemma DenotesSame(op: Op, a: seq<int>, b: seq<int>, c: seq<int>, c': seq<int>)
    requires Denotes(op, a, b, c) && SameSet(c', c)
    ensures Denotes(op, a, b, c')
  {
    hide In;
  }

  /** Everything between 0 and the largest number that is not in `s`. */
  ghost predicate Complement(s: seq<int>, t: seq<int>)
  {
    forall x :: In(t, x) <==> 0 <= x < UINT32_MAX && !In(s, x)
  }

  predicate Bounded(s: seq<int>) { forall i :: 0 <= i < |s| ==> 0 <= s[i] <= UINT32_MAX }

  lemma Framed(s: seq<int>, framed: seq<int>, t: seq<int>)
    requires Bounded(s) && |s| % 2 == 0 && framed == [0] + s + [UINT32_MAX] && SameSet(t, framed)
    requires forall i :: 0 <= i < |t| ==> t[i] in framed
    ensures Complement(s, t) && Bounded(t)
  {
    forall x ensures In(t, x) <==> 0 <= x < UINT32_MAX && !In(s, x) {
      assert In(t, x) <==> In(framed, x);
      BelowAppend([0], s, x);
      BelowPush([0] + s, UINT32_MAX, x);
      assert [] + [0] == [0];
      BelowPush([], 0, x);
      if x < 0 {
        BelowNone(s, x);
      } else if x >= UINT32_MAX {
        BelowAll(s, x);
      }
    }
  }

  /** Inverting twice gives the range back, point by point. */
  lemma DoubleInverse(s: seq<int>, t: seq<int>, u: seq<int>)
    requires Canonical(s) && Bounded(s) && Complement(s, t) && Complement(t, u) && Canonical(u)
    ensures u == s
  {
    forall x ensures In(u, x) <==> In(s, x) {
      if x < 0 {
        BelowNone(s, x);
      } else if x >= UINT32_MAX {
        BelowAll(s, x);
      }
      assert In(t, x) <==> 0 <= x < UINT32_MAX && !In(s, x);
    }
    CanonicalUnique(u, s);
  }

  /** The result of an operation is determined by the sets, not by the points that denote them. */
  lemma OpUnique(op: Op, a: seq<int>, b: seq<int>, c: seq<int>, a': seq<int>, b': seq<int>, c': seq<int>)
    requires Denotes(op, a, b, c) && Denotes(op, a', b', c') && Canonical(c) && Canonical(c')
    requires SameSet(a, a') && SameSet(b, b')
    ensures c == c'
  {
    hide In;
    forall x ensures In(c, x) <==> In(c', x) {
      assert In(a, x) <==> In(a', x);
      assert In(b, x) <==> In(b', x);
    }
    CanonicalUnique(c, c');
  }

  /** What has been compressed so far denotes what has been read so far. */
  ghost predicate Packed(s: seq<int>, i: nat, out: seq<int>)
  {
    out in Packings(s, i)
  }

  ghost function Packings(s: seq<int>, i: nat): iset<seq<int>>
  {
    iset out: seq<int> |
      i <= |s| && Canonical(out) && SameSet(out, s[..i]) && (i < |s| && out != [] ==> out[|out| - 1] < s[i]) &&
      forall k :: 0 <= k < |out| ==> out[k] in s
  }

  lemma PackedStart(s: seq<int>)
    ensures Packed(s, 0, [])
  {
  }

  lemma PackedAll(s: seq<int>, i: nat, out: seq<int>)
    requires Packed(s, i, out) && i == |s|
    ensures Canonical(out) && SameSet(out, s) && forall k :: 0 <= k < |out| ==> out[k] in s
  {
    assert s[..i] == s;
  }

  lemma SkipEmpty(s: seq<int>, i: nat, out: seq<int>)
    requires Ordered(s) && i + 1 < |s| && s[i] == s[i + 1] && Packed(s, i, out)
    ensures Packed(s, i + 2, out)
  {
    hide In;
    var pair := [s[i], s[i + 1]];
    assert s[..i + 2] == s[..i] + pair && out + [] == out;
    NoInterval(s[i]);
    JoinSets(out, s[..i], [], pair);
  }

  lemma NoInterval(a: int)
    ensures SameSet([a, a], [])
  {
    forall x ensures In([a, a], x) <==> In([], x) {
      BelowTwo(a, a, x);
    }
  }

  /** From `i` to `j + 1` every interval begins where the one before it ends. */
  ghost predicate Run(s: seq<int>, i: nat, j: nat)
  {
    i <= j && j + 1 < |s| && SameSet(s[i..j + 2], [s[i], s[j + 1]])
  }

  lemma RunStart(s: seq<int>, i: nat)
    requires i + 1 < |s|
    ensures Run(s, i, i)
  {
    assert s[i..i + 2] == [s[i], s[i + 1]];
  }

  lemma RunStep(s: seq<int>, i: nat, j: nat)
    requires Run(s, i, j) && j + 3 < |s| && s[j + 1] == s[j + 2]
    ensures Run(s, i, j + 2)
  {
    assert s[i..j + 4] == s[i..j + 2] + [s[j + 2], s[j + 3]];
    var first, last := [s[i], s[j + 1]], [s[j + 2], s[j + 3]];
    Touching(s[i], s[j + 1], s[j + 3]);
    JoinSets([s[i], s[j + 1]], [s[i], s[j + 1]], last, last);
    JoinSets(s[i..j + 2], first, last, last);
    Chain(s[i..j + 2] + last, first + last, [s[i], s[j + 3]]);
  }

  lemma Touching(a: int, b: int, c: int)
    ensures SameSet([a, b] + [b, c], [a, c])
  {
    forall x ensures In([a, b] + [b, c], x) <==> In([a, c], x) {
      BelowAppend([a, b], [b, c], x);
      BelowTwo(a, b, x);
      BelowTwo(b, c, x);
      BelowTwo(a, c, x);
    }
  }

  lemma Chain(s: seq<int>, t: seq<int>, u: seq<int>)
    requires SameSet(s, t) && SameSet(t, u)
    ensures SameSet(s, u)
  {
    hide In;
    forall x ensures In(s, x) <==> In(u, x) {
      assert In(s, x) <==> In(t, x);
    }
  }

  lemma CopyRun(s: seq<int>, i: nat, j: nat, out: seq<int>)
    requires Ordered(s) && Packed(s, i, out) && Run(s, i, j) && s[i] != s[i + 1]
    requires j + 2 < |s| ==> s[j + 1] != s[j + 2]
    ensures Packed(s, j + 2, out + [s[i], s[j + 1]])
  {
    hide In;
    assert s[i] < s[i + 1] <= s[j + 1];
    JoinSets(out, s[..i], [s[i], s[j + 1]], s[i..j + 2]);
    assert s[..j + 2] == s[..i] + s[i..j + 2];
  }

  lemma JoinSets(s: seq<int>, s': seq<int>, t: seq<int>, t': seq<int>)
    requires SameSet(s, s') && SameSet(t', t)
    ensures SameSet(s + t, s' + t')
  {
    forall x ensures In(s + t, x) <==> In(s' + t', x) {
      BelowAppend(s, t, x);
      BelowAppend(s', t', x);
      assert In(s, x) <==> In(s', x);
      assert In(t', x) <==> In(t, x);
    }
  }

  class CharRange {
    /** points[..len] of the source; the buffer grows as needed. */
    var points: seq<int>

    constructor ()
      ensures points == []
    {
      points := [];
    }

    /** cr_add_point */
    method AddPoint(v: int)
      modifies this
      ensures points == old(points) + [v]
    {
      points := points + [v];
    }

    /** cr_add_interval */
    method AddInterval(c1: int, c2: int)
      modifies this
      ensures points == old(points) + [c1, c2]
    {
      points := points + [c1, c2];
    }

    /** cr_op, into an empty range. */
    method Combine(a: seq<int>, b: seq<int>, op: Op)
      requires points == [] && Ordered(a) && Ordered(b) && |a| % 2 == 0 && |b| % 2 == 0
      modifies this
      ensures Denotes(op, a, b, points) && Canonical(points)
      ensures forall i :: 0 <= i < |points| ==> points[i] in a || points[i] in b
    {
      hide Denotes;
      Merge(a, b, op);
      ghost var merged := points;
      Compress();
      DenotesSame(op, a, b, merged, points);
    }

    /** The merging loop of cr_op. */
    method Merge(a: seq<int>, b: seq<int>, op: Op)
      requires points == [] && Ordered(a) && Ordered(b) && |a| % 2 == 0 && |b| % 2 == 0
      modifies this
      ensures Denotes(op, a, b, points) && Ordered(points) && |points| % 2 == 0
      ensures forall i :: 0 <= i < |points| ==> points[i] in a || points[i] in b
    {
      hide Denotes, Ordered, UpTo;
      var aIdx, bIdx := 0, 0;
      OpStart(op);
      NoPoints();
      assert a[..0] == [] && b[..0] == [];
      while aIdx < |a| || bIdx < |b|
        invariant 0 <= aIdx <= |a| && 0 <= bIdx <= |b| && Denotes(op, a[..aIdx], b[..bIdx], points)
        invariant Ordered(points) && (|points| % 2 == 1 <==> Apply(op, aIdx % 2 == 1, bIdx % 2 == 1))
        invariant aIdx < |a| ==> UpTo(points, a[aIdx]) && UpTo(b[..bIdx], a[aIdx])
        invariant bIdx < |b| ==> UpTo(points, b[bIdx]) && UpTo(a[..aIdx], b[bIdx])
        invariant forall i :: 0 <= i < |points| ==> points[i] in a || points[i] in b
        decreases |a| - aIdx + |b| - bIdx
      {
        ghost var i, j, was := aIdx, bIdx, points;
        var v;
        if aIdx < |a| && bIdx < |b| {
          if a[aIdx] < b[bIdx] {
            v := a[aIdx];
            aIdx := aIdx + 1;
          } else if a[aIdx] == b[bIdx] {
            v := a[aIdx];
            aIdx := aIdx + 1;
            bIdx := bIdx + 1;
          } else {
            v := b[bIdx];
            bIdx := bIdx + 1;
          }
        } else if aIdx < |a| {
          v := a[aIdx];
          aIdx := aIdx + 1;
        } else {
          v := b[bIdx];
          bIdx := bIdx + 1;
        }
        Taken(a, i, aIdx, v);
        Taken(b, j, bIdx, v);
        Behind(a, i);
        Behind(b, j);
        var isIn := Status(op, aIdx, bIdx);
        if isIn != (|points| % 2 == 1) {
          AddPoint(v);
        }
        OrderedPush(was, v);
        OpStep(op, a[..i], a[..aIdx], b[..j], b[..bIdx], was, points, v);
        Later(a, aIdx, v, points);
        Later(a, aIdx, v, b[..bIdx]);
        Later(b, bIdx, v, points);
        Later(b, bIdx, v, a[..aIdx]);
      }
      assert a[..|a|] == a && b[..|b|] == b;
    }

    /** cr_compress: drops empty intervals and merges those that touch, in place. */
    method Compress()
      requires Ordered(points) && |points| % 2 == 0
      modifies this
      ensures Canonical(points) && SameSet(points, old(points))
      ensures forall i :: 0 <= i < |points| ==> points[i] in old(points)
    {
      hide In, Canonical, Packings, Run;
      ghost var s := points;
      var len := |points|;
      var i, k := 0, 0;
      PackedStart(s);
      assert points[..0] == [];
      while i + 1 < len
        invariant i % 2 == 0 && k % 2 == 0 && 0 <= k <= i <= len == |points| == |s|
        invariant (forall q :: i <= q < len ==> points[q] == s[q]) && Packed(s, i, points[..k])
        decreases len - i
      {
        if points[i] == points[i + 1] {
          SkipEmpty(s, i, points[..k]);
          i := i + 2;
        } else {
          var j := i;
          ghost var now := points;
          RunStart(s, i);
          while j + 3 < len && points[j + 1] == points[j + 2]
            invariant i <= j && j % 2 == 0 && j + 1 < len && Run(s, i, j) && points == now
          {
            RunStep(s, i, j);
            j := j + 2;
          }
          CopyRun(s, i, j, points[..k]);
          ghost var before := points[..k];
          points := points[k := points[i]];
          points := points[k + 1 := points[j + 1]];
          assert points[..k + 2] == before + [s[i], s[j + 1]];
          k := k + 2;
          i := j + 2;
        }
      }
      points := points[..k];
      PackedAll(s, i, points);
    }

    /** cr_op1 */
    method Combine1(b: seq<int>, op: Op)
      requires Ordered(points) && |points| % 2 == 0 && Ordered(b) && |b| % 2 == 0
      modifies this
      ensures Denotes(op, old(points), b, points) && Canonical(points)
      ensures forall i :: 0 <= i < |points| ==> points[i] in old(points) || points[i] in b
    {
      var a := points;
      points := [];
      Combine(a, b, op);
    }

    /** cr_invert */
    method Invert()
      requires Ordered(points) && |points| % 2 == 0 && Bounded(points)
      modifies this
      ensures Complement(old(points), points) && Canonical(points) && Bounded(points)
    {
      ghost var was := points;
      points := [0] + points + [UINT32_MAX];
      ghost var framed := points;
      Compress();
      Framed(was, framed, points);
    }
  }
}
