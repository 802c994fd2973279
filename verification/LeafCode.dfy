// Single-character instructions accept exactly the characters of the pattern they were emitted for.
module LeafCode {
  import opened Bytecode
  import opened Subjects
  import opened PointSets
  import opened Regex
  import opened Matcher
  import opened CodeGen

  predicate Ordered(rs: seq<Interval>)
  {
    (forall i :: 0 <= i < |rs| ==> rs[i].low <= rs[i].high) &&
    forall i, j :: 0 <= i < j < |rs| ==> rs[i].high < rs[j].low
  }

  predicate Hit(rs: seq<Interval>, c: int, lo: nat, hi: nat)
    requires hi <= |rs|
  {
    exists k :: lo <= k < hi && rs[k].low <= c <= rs[k].high
  }

  /** The binary search of the matcher finds an interval exactly when a linear scan would. */
  lemma {:induction false} SearchIsScan(rs: seq<Interval>, c: int, lo: nat, hi: nat)
    requires hi <= |rs| && Ordered(rs)
    ensures Search(rs, c, lo, hi) <==> Hit(rs, c, lo, hi)
    decreases if lo < hi then hi - lo else 0
  {
    if lo < hi {
      var mid := (lo + hi - 1) / 2;
      if c < rs[mid].low {
        SearchIsScan(rs, c, lo, mid);
      } else if c > rs[mid].high {
        SearchIsScan(rs, c, mid + 1, hi);
      }
    }
  }

  lemma IntervalsOrdered(points: seq<int>, infinity: int)
    requires ValidPoints(points)
    requires |points| > 0 ==> points[|points| - 2] <= infinity
    ensures Ordered(Intervals(points, infinity))
  {
    var rs := Intervals(points, infinity);
    forall i | 0 <= i < |rs| ensures rs[i].low <= rs[i].high {
      assert points[2 * i] < points[2 * i + 1];
      if points[2 * i + 1] == UINT32_MAX {
        assert 2 * i + 2 == |points|;
      }
    }
    forall i, j | 0 <= i < j < |rs| ensures rs[i].high < rs[j].low {
      assert points[2 * i + 1] < points[2 * j] < points[2 * j + 1];
    }
  }

  lemma HitIsMember(points: seq<int>, infinity: int, c: CodePoint)
    requires ValidPoints(points) && c <= infinity < UINT32_MAX
    ensures Hit(Intervals(points, infinity), c, 0, |points| / 2) <==> InPoints(points, c)
  {
    var rs := Intervals(points, infinity);
    if k :| 0 <= k < |points| / 2 && points[2 * k] <= c < points[2 * k + 1] {
      assert rs[k].low <= c <= rs[k].high;
    }
    if k :| 0 <= k < |points| / 2 && rs[k].low <= c <= rs[k].high {
      assert points[2 * k] <= c < points[2 * k + 1];
    }
  }

  lemma HitInside(rs: seq<Interval>, c: int)
    requires rs != [] && Ordered(rs) && Hit(rs, c, 0, |rs|)
    ensures rs[0].low <= c <= Last(rs).high
  {
    var k :| 0 <= k < |rs| && rs[k].low <= c <= rs[k].high;
    if k > 0 { assert rs[0].high < rs[k].low; }
    if k < |rs| - 1 { assert rs[k].high < rs[|rs| - 1].low; }
  }

  lemma RangesMember(points: seq<int>, infinity: int, wide: bool, c: CodePoint)
    requires ValidPoints(points) && points != []
    requires c <= infinity < UINT32_MAX && points[|points| - 2] <= infinity
    requires !wide ==> c < 0xffff
    ensures InRanges(Intervals(points, infinity), c, wide) <==> InPoints(points, c)
  {
    var rs := Intervals(points, infinity);
    IntervalsOrdered(points, infinity);
    SearchIsScan(rs, c, 0, |rs|);
    HitIsMember(points, infinity, c);
    if Hit(rs, c, 0, |rs|) {
      HitInside(rs, c);
    }
  }

  /** Beyond 0xfffe the 16-bit form relies on 0xffff meaning infinity. */
  lemma RangesInfinite(points: seq<int>, c: CodePoint)
    requires ValidPoints(points) && points != [] && c >= 0xffff
    requires points[|points| - 2] <= 0xffff
    requires points[|points| - 1] == UINT32_MAX || points[|points| - 1] <= 0xffff
    ensures InRanges(Intervals(points, 0xffff), c, false) <==> InPoints(points, c)
  {
    var rs, n := Intervals(points, 0xffff), |points| / 2;
    assert rs[n - 1].low == points[2 * (n - 1)];
    if points[|points| - 1] == UINT32_MAX {
      assert points[2 * (n - 1)] <= c < points[2 * (n - 1) + 1];
      assert rs[0].low <= rs[n - 1].low by {
        if n > 1 { assert points[0] < points[2 * (n - 1)]; }
      }
    } else {
      forall k | 0 <= k < n ensures !(points[2 * k] <= c < points[2 * k + 1]) {
        assert k < n - 1 ==> points[2 * k + 1] < points[2 * n - 1];
      }
    }
  }

  /** A character class and the instruction emitted for it accept the same characters. */
  lemma ClassAccepts(s: Subject, points: seq<int>, icase: bool, c: CodePoint)
    requires ValidPoints(points)
    ensures var i := ClassCode(points, icase)[0];
            IsCharInstr(i) && (Consumes(s, i, c) <==> InPoints(points, Fold(s, icase, c)))
  {
    if points != [] {
      var n := |points| / 2;
      var d := Fold(s, icase, c);
      var last := if points[2 * n - 1] == UINT32_MAX then points[2 * n - 2] else points[2 * n - 1];
      assert points[|points| - 2] < points[|points| - 1];
      if last > 0xffff {
        RangesMember(points, UINT32_MAX - 1, true, d);
      } else if d < 0xffff {
        RangesMember(points, 0xffff, false, d);
      } else {
        RangesInfinite(points, d);
      }
    }
  }

  /** The one instruction emitted for a single-character pattern accepts what the pattern accepts. */
  lemma CharAccepts(s: Subject, r: Regex, cc: nat, c: CodePoint)
    requires IsChar(r)
    ensures |Code(s.canon, r, cc)| == 1 && IsCharInstr(Code(s.canon, r, cc)[0])
    ensures Consumes(s, Code(s.canon, r, cc)[0], c) <==> Accepts(s, r, c)
  {
    if r.Class? {
      ClassAccepts(s, r.points, r.icase, c);
    }
  }
}
