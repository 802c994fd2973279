// Case-insensitive classes: sorting intervals, removing their overlap, and the image of a class under case folding.
module CaseFolding {
  import opened Orders
  import opened Sorting
  import opened PointSets
  import opened CharRanges

  // ---------- sorting intervals ----------

  type Interval = (int, int)

  function Flat(q: seq<Interval>): seq<int>
  {
    if q == [] then [] else Flat(q[..|q| - 1]) + [q[|q| - 1].0, q[|q| - 1].1]
  }

  lemma FlatPush(q: seq<Interval>, v: Interval)
    ensures Flat(q + [v]) == Flat(q) + [v.0, v.1]
  {
    assert (q + [v])[..|q|] == q;
  }

  lemma {:induction false} FlatAt(q: seq<Interval>, k: nat)
    requires k < |q|
    ensures |Flat(q)| == 2 * |q| && Flat(q)[2 * k] == q[k].0 && Flat(q)[2 * k + 1] == q[k].1
  {
    FlatLength(q);
    FlatLength(q[..|q| - 1]);
    if k < |q| - 1 {
      FlatAt(q[..|q| - 1], k);
    }
  }

  lemma {:induction false} FlatLength(q: seq<Interval>)
    ensures |Flat(q)| == 2 * |q|
  {
    if q != [] {
      FlatLength(q[..|q| - 1]);
    }
  }

  predicate Inside(v: Interval, x: int) { v.0 <= x < v.1 }

  /** Some interval, in whatever order and however they overlap, contains `x`. */
  lemma InFlat(q: seq<Interval>, x: int)
    ensures InPoints(Flat(q), x) <==> exists v :: v in q && Inside(v, x)
  {
    FlatLength(q);
    if InPoints(Flat(q), x) {
      var k :| 0 <= k < |Flat(q)| / 2 && Flat(q)[2 * k] <= x < Flat(q)[2 * k + 1];
      FlatAt(q, k);
      assert q[k] in q && Inside(q[k], x);
    }
    if v :| v in q && Inside(v, x) {
      var k :| 0 <= k < |q| && q[k] == v;
      FlatAt(q, k);
      assert Flat(q)[2 * k] <= x < Flat(q)[2 * k + 1];
    }
  }

  lemma InPointsPush(s: seq<int>, a: int, b: int, x: int)
    requires |s| % 2 == 0
    ensures InPoints(s + [a, b], x) <==> InPoints(s, x) || a <= x < b
  {
    var t := s + [a, b];
    if InPoints(s, x) {
      var k :| 0 <= k < |s| / 2 && s[2 * k] <= x < s[2 * k + 1];
      assert t[2 * k] <= x < t[2 * k + 1];
    }
    if a <= x < b {
      assert t[2 * (|s| / 2)] == a;
    }
    if InPoints(t, x) && !(a <= x < b) {
      var k :| 0 <= k < |t| / 2 && t[2 * k] <= x < t[2 * k + 1];
      assert k != |s| / 2;
      assert s[2 * k] <= x < s[2 * k + 1];
    }
  }

  /** point_cmp compares where intervals start. */
  function PointCmp(p1: Interval, p2: Interval): int
  {
    (if p1.0 > p2.0 then 1 else 0) - (if p1.0 < p2.0 then 1 else 0)
  }

  lemma PointCmpOrder()
    ensures TotalPreorder(PointCmp)
  {
  }

  /** The same intervals, sorted by where they start. */
  ghost predicate SortedIntervals(s: seq<int>, q: seq<Interval>)
  {
    |s| == 2 * |q| && (forall x :: InPoints(s, x) <==> InPoints(Flat(q), x)) &&
    (forall v :: v in q ==> v.0 < v.1) && forall i, j :: 0 <= i < j < |q| ==> q[i].0 <= q[j].0
  }

  predicate Nonempty(s: seq<int>)
  {
    |s| % 2 == 0 && forall k :: 0 <= k < |s| / 2 ==> s[2 * k] < s[2 * k + 1]
  }

  method SortIntervals(points: seq<int>) returns (q: seq<Interval>)
    requires Nonempty(points)
    ensures SortedIntervals(points, q)
  {
    hide TotalPreorder, SortedPermutation;
    var n := |points| / 2;
    var pairs := new Interval[n](i requires 0 <= i < n => (points[2 * i], points[2 * i + 1]));
    ghost var was := pairs[..];
    FlatOf(points, was);
    PointCmpOrder();
    Rqsort(pairs, PointCmp);
    q := pairs[..];
    Permuted(points, was, q);
  }

  lemma {:induction false} FlatOf(points: seq<int>, q: seq<Interval>)
    requires |points| == 2 * |q| && forall k :: 0 <= k < |q| ==> q[k] == (points[2 * k], points[2 * k + 1])
    ensures Flat(q) == points
  {
    FlatLength(q);
    forall i | 0 <= i < |points| ensures Flat(q)[i] == points[i] {
      FlatAt(q, i / 2);
    }
  }

  lemma Permuted(points: seq<int>, was: seq<Interval>, q: seq<Interval>)
    requires Nonempty(points) && Flat(was) == points && SortedPermutation(PointCmp, was, q)
    ensures SortedIntervals(points, q)
  {
    FlatLength(was);
    assert |was| == |multiset(was)| == |q|;
    forall v ensures v in was <==> v in q {
      assert v in multiset(was) <==> v in multiset(q);
    }
    forall x ensures InPoints(points, x) <==> InPoints(Flat(q), x) {
      InFlat(was, x);
      InFlat(q, x);
    }
    forall v | v in q ensures v.0 < v.1 {
      var k :| 0 <= k < |was| && was[k] == v;
      FlatAt(was, k);
    }
    forall i, j | 0 <= i < j < |q| ensures q[i].0 <= q[j].0 {
      assert PointCmp(q[i], q[j]) <= 0;
    }
  }

  // ---------- removing overlap ----------

  /** `out` is the first `n` intervals, joined. */
  ghost predicate Joined(q: seq<Interval>, n: nat, out: seq<int>)
  {
    out in Joinings(q, n)
  }

  ghost function Joinings(q: seq<Interval>, n: nat): iset<seq<int>>
  {
    iset out: seq<int> |
      n <= |q| && Canonical(out) && (forall x :: InPoints(out, x) <==> InPoints(Flat(q[..n]), x)) &&
      (n < |q| && out != [] ==> out[|out| - 1] < q[n].0)
  }

  /** The intervals from `i` up to `n` add up to the one from `start` to `end`. */
  ghost predicate Growing(q: seq<Interval>, i: nat, n: nat, end: int)
  {
    i < n <= |q| && q[i].0 < end && forall x :: q[i].0 <= x < end <==> InPoints(Flat(q[i..n]), x)
  }

  ghost predicate ByStart(q: seq<Interval>)
  {
    (forall v :: v in q ==> v.0 < v.1) && forall i, j :: 0 <= i < j < |q| ==> q[i].0 <= q[j].0
  }

  lemma JoinedNone(q: seq<Interval>)
    ensures Joined(q, 0, [])
  {
    assert q[..0] == [];
  }

  lemma GrowingOne(q: seq<Interval>, i: nat)
    requires i < |q| && ByStart(q)
    ensures Growing(q, i, i + 1, q[i].1)
  {
    hide InPoints, Flat;
    assert q[i..i + 1] == [] + [q[i]];
    FlatPush([], q[i]);
    FlatEmpty();
    assert q[i] in q;
    forall x ensures q[i].0 <= x < q[i].1 <==> InPoints([] + [q[i].0, q[i].1], x) {
      InPointsPush([], q[i].0, q[i].1, x);
      NoneInEmpty(x);
    }
  }

  lemma FlatEmpty()
    ensures Flat([]) == []
  {
  }

  lemma GrowingMore(q: seq<Interval>, i: nat, n: nat, end: int)
    requires ByStart(q) && n < |q| && Growing(q, i, n, end) && q[n].0 <= end
    ensures Growing(q, i, n + 1, if q[n].1 <= end then end else q[n].1)
  {
    assert q[i..n + 1] == q[i..n] + [q[n]];
    FlatPush(q[i..n], q[n]);
    FlatLength(q[i..n]);
    var e := if q[n].1 <= end then end else q[n].1;
    var f := Flat(q[i..n + 1]);
    forall x ensures q[i].0 <= x < e <==> InPoints(f, x) {
      InPointsPush(Flat(q[i..n]), q[n].0, q[n].1, x);
      assert q[i].0 <= x < end <==> InPoints(Flat(q[i..n]), x);
    }
  }

  lemma JoinedMore(q: seq<Interval>, i: nat, n: nat, end: int, out: seq<int>)
    requires ByStart(q) && Joined(q, i, out) && Growing(q, i, n, end) && (n < |q| ==> q[n].0 > end)
    ensures Joined(q, n, out + [q[i].0, end])
  {
    var more := out + [q[i].0, end];
    forall x ensures InPoints(more, x) <==> InPoints(Flat(q[..n]), x) {
      InPointsPush(out, q[i].0, end, x);
      InFlatSplit(q, i, n, x);
      assert InPoints(out, x) <==> InPoints(Flat(q[..i]), x);
      assert q[i].0 <= x < end <==> InPoints(Flat(q[i..n]), x);
    }
  }

  lemma InFlatSplit(q: seq<Interval>, i: nat, n: nat, x: int)
    requires i <= n <= |q|
    ensures InPoints(Flat(q[..n]), x) <==> InPoints(Flat(q[..i]), x) || InPoints(Flat(q[i..n]), x)
  {
    assert q[..n] == q[..i] + q[i..n];
    InFlat(q[..n], x);
    InFlat(q[..i], x);
    InFlat(q[i..n], x);
  }

  lemma JoinedAll(q: seq<Interval>, n: nat, out: seq<int>, x: int)
    requires Joined(q, n, out) && n == |q|
    ensures Canonical(out) && (In(out, x) <==> InPoints(Flat(q), x))
  {
    assert q[..n] == q;
    InIsInterval(out, x);
  }

  /** cr_sort_and_remove_overlap */
  method SortAndRemoveOverlap(cr: CharRange)
    requires Nonempty(cr.points)
    modifies cr
    ensures Canonical(cr.points) && forall x :: In(cr.points, x) <==> InPoints(old(cr.points), x)
  {
    hide Joinings, Growing, Canonical, In, Nonempty;
    var q := SortIntervals(cr.points);
    SortedFacts(cr.points, q);
    cr.points := Flat(q);
    RemoveOverlap(cr, q);
  }

  lemma SortedFacts(s: seq<int>, q: seq<Interval>)
    requires SortedIntervals(s, q)
    ensures ByStart(q) && forall x :: InPoints(s, x) <==> InPoints(Flat(q), x)
  {
  }

  method RemoveOverlap(cr: CharRange, ghost q: seq<Interval>)
    requires cr.points == Flat(q) && ByStart(q)
    modifies cr
    ensures Canonical(cr.points) && forall x :: In(cr.points, x) <==> InPoints(Flat(q), x)
  {
    hide Joinings, Growing, ByStart, Canonical, In, InPoints, Flat;
    FlatLength(q);
    var j, i, len := 0, 0, |cr.points|;
    JoinedNone(q);
    assert cr.points[..0] == [];
    while i < len
      invariant 0 <= j <= i <= len == |cr.points| == 2 * |q| && i % 2 == 0 && Joined(q, i / 2, cr.points[..j])
      invariant forall k :: i <= k < len ==> cr.points[k] == Flat(q)[k]
    {
      ghost var n0 := i / 2;
      FlatAt(q, n0);
      var start, end := cr.points[i], cr.points[i + 1];
      GrowingOne(q, n0);
      i := i + 2;
      ghost var now := cr.points;
      while i < len
        invariant j + 2 <= i <= len && i % 2 == 0 && Growing(q, n0, i / 2, end) && cr.points == now
        invariant forall k :: i <= k < len ==> cr.points[k] == Flat(q)[k]
      {
        FlatAt(q, i / 2);
        var start1, end1 := cr.points[i], cr.points[i + 1];
        if start1 > end {
          break;
        }
        GrowingMore(q, n0, i / 2, end);
        if end1 > end {
          end := end1;
        }
        i := i + 2;
      }
      if i < len {
        FlatAt(q, i / 2);
      }
      ghost var before := cr.points[..j];
      JoinedMore(q, n0, i / 2, end, before);
      cr.points := cr.points[j := start];
      cr.points := cr.points[j + 1 := end];
      assert cr.points[..j + 2] == before + [start, end];
      j := j + 2;
    }
    cr.points := cr.points[..j];
    JoinedAll(q, i / 2, cr.points, 0);
    forall x ensures In(cr.points, x) <==> InPoints(Flat(q), x) {
      JoinedAll(q, i / 2, cr.points, x);
    }
  }

  // ---------- the image of a set under case folding ----------

  /** One entry of case_conv_table1: `len` code points from `code` on. */
  datatype CaseRun = CaseRun(code: int, len: nat)

  predicate InRun(r: CaseRun, c: int) { r.code <= c < r.code + r.len }

  predicate RunsSorted(table: seq<CaseRun>)
  {
    forall i, j :: 0 <= i < j < |table| ==> table[i].code + table[i].len <= table[j].code
  }

  predicate InSomeRun(table: seq<CaseRun>, c: int) { exists k :: 0 <= k < |table| && InRun(table[k], c) }

  /** What the case tables must satisfy: sorted runs, on which `fold` is `canon`, and a mask that covers every code
      point that `canon` changes and lies inside the runs. */
  ghost predicate TablesAgree(table: seq<CaseRun>, mask: seq<int>, fold: (int, int) -> int, canon: int -> int)
  {
    RunsSorted(table) && Ordered(mask) && |mask| % 2 == 0 && Bounded(mask) &&
    (forall k, c :: 0 <= k < |table| && InRun(table[k], c) ==> fold(c, k) == canon(c)) &&
    (forall c :: In(mask, c) ==> InSomeRun(table, c)) &&
    (forall c :: canon(c) != c ==> In(mask, c)) &&
    forall c :: 0 <= c < UINT32_MAX ==> 0 <= canon(c) < UINT32_MAX
  }

  /** `y` is the image of a member. */
  ghost predicate HasImage(s: seq<int>, canon: int -> int, y: int)
  {
    exists c :: In(s, c) && canon(c) == y
  }

  /** The code points emitted so far, with the pending interval, are the images of `done`. */
  ghost predicate Imaged(points: seq<int>, dStart: int, dEnd: int, done: set<int>, canon: int -> int)
  {
    Nonempty(points) && (dStart != UINT32_MAX ==> dStart < dEnd) && (dStart == UINT32_MAX ==> points == []) &&
    forall y :: (InPoints(points, y) || (dStart != UINT32_MAX && dStart <= y < dEnd)) <==> ImageOf(done, canon, y)
  }

  ghost predicate ImageOf(done: set<int>, canon: int -> int, y: int)
  {
    exists c :: c in done && canon(c) == y
  }

  lemma ImageOfMore(done: set<int>, c: int, canon: int -> int, y: int)
    ensures ImageOf(done + {c}, canon, y) <==> ImageOf(done, canon, y) || y == canon(c)
  {
    if ImageOf(done, canon, y) {
      var x :| x in done && canon(x) == y;
      assert x in done + {c};
    }
    if y == canon(c) {
      assert c in done + {c};
    }
  }

  lemma ImagedStart(canon: int -> int)
    ensures Imaged([], UINT32_MAX, UINT32_MAX, {}, canon)
  {
  }

  lemma ImagedExtend(points: seq<int>, dStart: int, dEnd: int, done: set<int>, canon: int -> int, c: int)
    requires Imaged(points, dStart, dEnd, done, canon) && 0 <= canon(c) < UINT32_MAX
    ensures dStart == UINT32_MAX ==> Imaged(points, canon(c), canon(c) + 1, done + {c}, canon)
    ensures dStart != UINT32_MAX && dEnd == canon(c) ==> Imaged(points, dStart, dEnd + 1, done + {c}, canon)
  {
    hide Nonempty, ImageOf, InPoints;
    forall y ensures ImageOf(done + {c}, canon, y) <==> ImageOf(done, canon, y) || y == canon(c) {
      ImageOfMore(done, c, canon, y);
    }
    if dStart == UINT32_MAX {
      forall y ensures !InPoints(points, y) {
        NoneInEmpty(y);
      }
    }
  }

  lemma NoneInEmpty(y: int)
    ensures !InPoints([], y)
  {
  }

  lemma ImagedFlush(points: seq<int>, dStart: int, dEnd: int, done: set<int>, canon: int -> int, c: int)
    requires Imaged(points, dStart, dEnd, done, canon) && 0 <= canon(c) < UINT32_MAX && dStart != UINT32_MAX
    ensures Imaged(points + [dStart, dEnd], canon(c), canon(c) + 1, done + {c}, canon)
  {
    hide ImageOf, InPoints;
    forall y ensures ImageOf(done + {c}, canon, y) <==> ImageOf(done, canon, y) || y == canon(c) {
      ImageOfMore(done, c, canon, y);
    }
    forall y ensures InPoints(points + [dStart, dEnd], y) <==> InPoints(points, y) || dStart <= y < dEnd {
      InPointsPush(points, dStart, dEnd, y);
    }
    var more := points + [dStart, dEnd];
    forall k | 0 <= k < |more| / 2 ensures more[2 * k] < more[2 * k + 1] {
      assert k < |points| / 2 ==> points[2 * k] < points[2 * k + 1];
    }
  }

  lemma ImagedEnd(points: seq<int>, dStart: int, dEnd: int, done: set<int>, canon: int -> int)
    requires Imaged(points, dStart, dEnd, done, canon)
    ensures var all := if dStart != UINT32_MAX then points + [dStart, dEnd] else points;
            Nonempty(all) && forall y :: InPoints(all, y) <==> ImageOf(done, canon, y)
  {
    hide ImageOf, InPoints;
    forall y ensures InPoints(points + [dStart, dEnd], y) <==> InPoints(points, y) || dStart <= y < dEnd {
      InPointsPush(points, dStart, dEnd, y);
    }
    var more := points + [dStart, dEnd];
    forall k | 0 <= k < |more| / 2 && dStart != UINT32_MAX ensures more[2 * k] < more[2 * k + 1] {
      assert k < |points| / 2 ==> points[2 * k] < points[2 * k + 1];
    }
  }

  /** Merges the image of one code point with the interval in progress. */
  method AddImage(result: CharRange, dStart0: int, dEnd0: int, d: int, ghost c: int, ghost done: set<int>, ghost canon: int -> int)
    returns (dStart: int, dEnd: int)
    requires Imaged(result.points, dStart0, dEnd0, done, canon) && d == canon(c) && 0 <= d < UINT32_MAX
    modifies result
    ensures Imaged(result.points, dStart, dEnd, done + {c}, canon)
  {
    hide Imaged;
    dStart, dEnd := dStart0, dEnd0;
    ImagedExtend(result.points, dStart, dEnd, done, canon, c);
    if dStart == UINT32_MAX {
      dStart := d;
      dEnd := d + 1;
    } else if dEnd == d {
      dEnd := dEnd + 1;
    } else {
      ImagedFlush(result.points, dStart, dEnd, done, canon, c);
      result.AddInterval(dStart, dEnd);
      dStart := d;
      dEnd := d + 1;
    }
  }

  /** No run before `idx` reaches `c`. */
  predicate Passed(table: seq<CaseRun>, idx: nat, c: int)
  {
    forall k :: 0 <= k < idx && k < |table| ==> table[k].code + table[k].len <= c
  }

  /** Moves on to the run that holds `c`. */
  method FindRun(table: seq<CaseRun>, idx0: nat, c: int) returns (idx: nat)
    requires RunsSorted(table) && Passed(table, idx0, c) && InSomeRun(table, c)
    ensures idx < |table| && InRun(table[idx], c) && Passed(table, idx, c)
  {
    ghost var k :| 0 <= k < |table| && InRun(table[k], c);
    idx := idx0;
    while true
      invariant idx <= k && Passed(table, idx, c)
      decreases k - idx
    {
      if InRun(table[idx], c) {
        return;
      }
      idx := idx + 1;
    }
  }

  /** Every code point of `inter` is replaced by its image. */
  method FoldAll(inter: seq<int>, mask: seq<int>, table: seq<CaseRun>, fold: (int, int) -> int, ghost canon: int -> int) returns (result: CharRange)
    requires TablesAgree(table, mask, fold, canon) && Canonical(inter) && Bounded(inter)
    requires forall x :: In(inter, x) ==> In(mask, x)
    ensures fresh(result) && Nonempty(result.points) && forall y :: InPoints(result.points, y) <==> HasImage(inter, canon, y)
  {
    hide TablesAgree, Imaged, InPoints, In, Passed, InRun, Canonical, Bounded, ImageOf, Nonempty;
    result := new CharRange();
    var dStart, dEnd, idx := UINT32_MAX, UINT32_MAX, 0;
    ghost var done: set<int> := {};
    ImagedStart(canon);
    DoneStart(inter);
    PassedStart(table);
    Evenness(inter);
    var i := 0;
    while i < |inter|
      invariant 0 <= i <= |inter| && i % 2 == 0 && Imaged(result.points, dStart, dEnd, done, canon) && fresh(result)
      invariant Done(inter, i, done) && (i < |inter| ==> Passed(table, idx, inter[i]))
    {
      var start, end := inter[i], inter[i + 1];
      IntervalOf(inter, i);
      var c := start;
      ghost var before := done;
      DoneNone(before, start);
      while c < end
        invariant start <= c <= end && Imaged(result.points, dStart, dEnd, done, canon) && fresh(result)
        invariant DonePart(before, start, c, done) && Passed(table, idx, c)
      {
        Foldable(inter, mask, table, fold, canon, i, c);
        idx := FindRun(table, idx, c);
        Folded(inter, mask, table, fold, canon, idx, c);
        var d := fold(c, idx);
        dStart, dEnd := AddImage(result, dStart, dEnd, d, c, done, canon);
        DoneNext(before, start, c, done);
        done := done + {c};
        PassedMore(table, idx, c, c + 1);
        c := c + 1;
      }
      DoneInterval(inter, i, before, done);
      i := i + 2;
      if i < |inter| {
        PassedMore(table, idx, end, inter[i]);
      }
    }
    ImagedEnd(result.points, dStart, dEnd, done, canon);
    if dStart != UINT32_MAX {
      result.AddInterval(dStart, dEnd);
    }
    AllImages(inter, i, done, canon, result.points);
  }

  ghost predicate Done(inter: seq<int>, i: nat, done: set<int>)
  {
    forall x :: x in done <==> InPoints(if i <= |inter| then inter[..i] else inter, x)
  }

  ghost predicate DonePart(before: set<int>, start: int, c: int, done: set<int>)
  {
    forall x :: x in done <==> x in before || start <= x < c
  }

  lemma DoneStart(inter: seq<int>)
    ensures Done(inter, 0, {})
  {
    assert inter[..0] == [];
  }

  lemma DoneNone(before: set<int>, start: int)
    ensures DonePart(before, start, start, before)
  {
  }

  lemma DoneNext(before: set<int>, start: int, c: int, done: set<int>)
    requires DonePart(before, start, c, done) && start <= c
    ensures DonePart(before, start, c + 1, done + {c})
  {
  }

  lemma DoneInterval(inter: seq<int>, i: nat, before: set<int>, done: set<int>)
    requires i + 1 < |inter| && i % 2 == 0 && Done(inter, i, before) && DonePart(before, inter[i], inter[i + 1], done)
    ensures Done(inter, i + 2, done)
  {
    hide InPoints;
    assert inter[..i + 2] == inter[..i] + [inter[i], inter[i + 1]];
    forall x ensures x in done <==> InPoints(inter[..i + 2], x) {
      InPointsPush(inter[..i], inter[i], inter[i + 1], x);
    }
  }

  lemma PassedStart(table: seq<CaseRun>)
    ensures forall c :: Passed(table, 0, c)
  {
  }

  lemma PassedMore(table: seq<CaseRun>, idx: nat, c: int, c': int)
    requires Passed(table, idx, c) && c <= c'
    ensures Passed(table, idx, c')
  {
  }

  lemma Evenness(inter: seq<int>)
    requires Canonical(inter)
    ensures |inter| % 2 == 0
  {
  }

  lemma IntervalOf(inter: seq<int>, i: nat)
    requires Canonical(inter) && i + 1 < |inter|
    ensures inter[i] < inter[i + 1] && (i + 2 < |inter| ==> inter[i + 1] < inter[i + 2])
  {
  }

  lemma Foldable(inter: seq<int>, mask: seq<int>, table: seq<CaseRun>, fold: (int, int) -> int, canon: int -> int, i: nat, c: int)
    requires TablesAgree(table, mask, fold, canon) && Canonical(inter) && Bounded(inter) && i + 1 < |inter| && i % 2 == 0
    requires inter[i] <= c < inter[i + 1] && forall x :: In(inter, x) ==> In(mask, x)
    ensures RunsSorted(table) && InSomeRun(table, c) && 0 <= c < UINT32_MAX
  {
    hide In, InRun, InSomeRun;
    assert inter[2 * (i / 2)] <= c < inter[2 * (i / 2) + 1];
    assert InPoints(inter, c);
    InIsInterval(inter, c);
    assert In(mask, c);
  }

  lemma Folded(inter: seq<int>, mask: seq<int>, table: seq<CaseRun>, fold: (int, int) -> int, canon: int -> int, idx: nat, c: int)
    requires TablesAgree(table, mask, fold, canon) && 0 <= c < UINT32_MAX && idx < |table| && InRun(table[idx], c)
    ensures fold(c, idx) == canon(c) && 0 <= canon(c) < UINT32_MAX
  {
    hide In, InRun, InSomeRun;
  }

  lemma AllImages(inter: seq<int>, i: nat, done: set<int>, canon: int -> int, points: seq<int>)
    requires Canonical(inter) && i == |inter| && Done(inter, i, done) && forall y :: InPoints(points, y) <==> ImageOf(done, canon, y)
    ensures forall y :: InPoints(points, y) <==> HasImage(inter, canon, y)
  {
    hide InPoints, In;
    assert inter[..i] == inter;
    forall x ensures x in done <==> In(inter, x) {
      InIsInterval(inter, x);
    }
    forall y ensures InPoints(points, y) <==> HasImage(inter, canon, y) {
      if ImageOf(done, canon, y) {
        var c :| c in done && canon(c) == y;
        assert In(inter, c);
      }
      if HasImage(inter, canon, y) {
        var c :| In(inter, c) && canon(c) == y;
        assert c in done;
      }
    }
  }

  /** cr_regexp_canonicalize: exactly the images of the members, whatever the tables fold. */
  method RegexpCanonicalize(cr: CharRange, mask: seq<int>, table: seq<CaseRun>, fold: (int, int) -> int, ghost canon: int -> int)
    requires TablesAgree(table, mask, fold, canon) && Ordered(cr.points) && |cr.points| % 2 == 0 && Bounded(cr.points)
    modifies cr
    ensures Canonical(cr.points) && forall y :: In(cr.points, y) <==> HasImage(old(cr.points), canon, y)
  {
    hide TablesAgree, In, InPoints, Canonical, Ordered, Bounded, Denotes, Complement, HasImage, Nonempty;
    ghost var s := cr.points;
    MaskShape(table, mask, fold, canon);
    var crInter := new CharRange();
    var crMask := new CharRange();
    var crSub := new CharRange();
    crInter.Combine(mask, cr.points, Inter);
    crMask.points := mask;
    crMask.Invert();
    Ordering(crMask.points);
    crSub.Combine(crMask.points, cr.points, Inter);
    InterBounded(mask, s, crInter.points);
    var result := FoldAll(crInter.points, mask, table, fold, canon);
    ghost var images := result.points;
    SortAndRemoveOverlap(result);
    Ordering(result.points);
    Ordering(crSub.points);
    cr.points := [];
    cr.Combine(result.points, crSub.points, Union);
    Image(s, mask, table, fold, canon, crInter.points, crMask.points, crSub.points, images, result.points, cr.points);
  }

  lemma MaskShape(table: seq<CaseRun>, mask: seq<int>, fold: (int, int) -> int, canon: int -> int)
    requires TablesAgree(table, mask, fold, canon)
    ensures Ordered(mask) && |mask| % 2 == 0 && Bounded(mask)
  {
  }

  lemma Ordering(s: seq<int>)
    requires Canonical(s)
    ensures Ordered(s) && |s| % 2 == 0
  {
  }

  lemma InterBounded(a: seq<int>, b: seq<int>, c: seq<int>)
    requires Bounded(a) && Bounded(b) && forall i :: 0 <= i < |c| ==> c[i] in a || c[i] in b
    requires Denotes(Inter, a, b, c)
    ensures Bounded(c) && forall x :: In(c, x) ==> In(a, x)
  {
    hide In;
  }

  lemma Image(s: seq<int>, mask: seq<int>, table: seq<CaseRun>, fold: (int, int) -> int, canon: int -> int,
              inter: seq<int>, outside: seq<int>, sub: seq<int>, images: seq<int>, result: seq<int>, all: seq<int>)
    requires TablesAgree(table, mask, fold, canon) && Denotes(Inter, mask, s, inter) && Complement(mask, outside)
    requires Denotes(Inter, outside, s, sub) && (forall y :: InPoints(images, y) <==> HasImage(inter, canon, y))
    requires (forall x :: In(result, x) <==> InPoints(images, x)) && Denotes(Union, result, sub, all)
    requires Bounded(s) && |s| % 2 == 0
    ensures forall y :: In(all, y) <==> HasImage(s, canon, y)
  {
    hide In, InPoints, InSomeRun, RunsSorted, Ordered;
    forall y ensures In(all, y) <==> HasImage(s, canon, y) {
      assert In(all, y) <==> In(result, y) || In(sub, y);
      if HasImage(inter, canon, y) {
        var c :| In(inter, c) && canon(c) == y;
        assert In(s, c);
      }
      if In(sub, y) {
        assert In(outside, y) && In(s, y);
        assert !In(mask, y);
        assert canon(y) == y;
      }
      if HasImage(s, canon, y) {
        var c :| In(s, c) && canon(c) == y;
        MemberBounded(s, c);
        if In(mask, c) {
          assert In(inter, c);
        } else {
          assert In(outside, c);
          assert In(sub, c);
        }
      }
    }
  }

  lemma MemberBounded(s: seq<int>, c: int)
    requires Bounded(s) && |s| % 2 == 0 && In(s, c)
    ensures 0 <= c < UINT32_MAX
  {
    if c < 0 {
      BelowNone(s, c);
    } else if c >= UINT32_MAX {
      BelowAll(s, c);
    }
  }
}
