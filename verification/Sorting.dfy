// rqsort: iterative quicksort with a three-way partition, an explicit stack, a heapsort fallback and an
// insertion sort for short segments, over an array in place.
module Orders {
  ghost predicate TotalPreorder<T(!new)>(cmp: (T, T) -> int)
  {
    (forall x, y :: cmp(x, y) <= 0 || cmp(y, x) <= 0) &&
    (forall x, y :: cmp(x, y) < 0 <==> cmp(y, x) > 0) &&
    (forall x, y, z :: cmp(x, y) <= 0 && cmp(y, z) <= 0 ==> cmp(x, z) <= 0)
  }

  lemma Flip<T(!new)>(cmp: (T, T) -> int, x: T, y: T)
    requires TotalPreorder(cmp)
    ensures cmp(x, y) < 0 <==> cmp(y, x) > 0
    ensures cmp(y, x) < 0 <==> cmp(x, y) > 0
    ensures cmp(x, x) == 0
  {
  }

  lemma Trans<T(!new)>(cmp: (T, T) -> int, x: T, y: T, z: T)
    requires TotalPreorder(cmp)
    ensures cmp(x, y) <= 0 && cmp(y, z) <= 0 ==> cmp(x, z) <= 0
  {
  }

  /** No pair of the segment is out of order. */
  ghost predicate SortedIn<T(!new)>(cmp: (T, T) -> int, s: seq<T>, lo: nat, hi: nat)
    requires hi <= |s|
  {
    forall i, j :: lo <= i < j < hi ==> cmp(s[i], s[j]) <= 0
  }

  /** The sequences that are `s` with the elements of one segment permuted. */
  ghost function Rearrangements<T(!new)>(s: seq<T>, lo: nat, hi: nat): iset<seq<T>>
  {
    iset t: seq<T> | |s| == |t| && lo <= hi <= |s| && s[..lo] == t[..lo] && s[hi..] == t[hi..] &&
                     multiset(s[lo..hi]) == multiset(t[lo..hi])
  }

  ghost predicate Rearranged<T(!new)>(s: seq<T>, t: seq<T>, lo: nat, hi: nat)
  {
    t in Rearrangements(s, lo, hi)
  }

  function Swapped<T>(s: seq<T>, i: nat, j: nat): seq<T>
    requires i < |s| && j < |s|
  {
    s[i := s[j]][j := s[i]]
  }

  lemma SwapRearranges<T(!new)>(s: seq<T>, i: nat, j: nat, lo: nat, hi: nat)
    requires lo <= i < hi <= |s| && lo <= j < hi
    ensures Rearranged(s, Swapped(s, i, j), lo, hi)
  {
    var x := s[lo..hi];
    assert Swapped(s, i, j)[lo..hi] == x[i - lo := x[j - lo]][j - lo := x[i - lo]];
  }

  lemma RearrangedTrans<T(!new)>(s: seq<T>, t: seq<T>, u: seq<T>, lo: nat, hi: nat)
    requires Rearranged(s, t, lo, hi) && Rearranged(t, u, lo, hi)
    ensures Rearranged(s, u, lo, hi)
  {
  }

  lemma RearrangedSame<T(!new)>(s: seq<T>, lo: nat, hi: nat)
    requires lo <= hi <= |s|
    ensures Rearranged(s, s, lo, hi)
  {
  }

  lemma RearrangedWider<T(!new)>(s: seq<T>, t: seq<T>, lo: nat, hi: nat, lo': nat, hi': nat)
    requires Rearranged(s, t, lo, hi) && lo' <= lo && hi <= hi' <= |s|
    ensures Rearranged(s, t, lo', hi')
  {
    Sandwich(s, lo, hi, lo', hi');
    Sandwich(t, lo, hi, lo', hi');
    assert s[lo'..lo] == s[..lo][lo'..] && t[lo'..lo] == t[..lo][lo'..];
    assert s[hi..hi'] == s[hi..][..hi' - hi] && t[hi..hi'] == t[hi..][..hi' - hi];
    assert s[..lo'] == s[..lo][..lo'] && t[..lo'] == t[..lo][..lo'];
    assert s[hi'..] == s[hi..][hi' - hi..] && t[hi'..] == t[hi..][hi' - hi..];
  }

  lemma Sandwich<T>(s: seq<T>, lo: nat, hi: nat, lo': nat, hi': nat)
    requires lo' <= lo <= hi <= hi' <= |s|
    ensures multiset(s[lo'..hi']) == multiset(s[lo'..lo]) + multiset(s[lo..hi]) + multiset(s[hi..hi'])
  {
    assert s[lo'..hi'] == s[lo'..lo] + s[lo..hi] + s[hi..hi'];
  }

  lemma RearrangedLength<T(!new)>(s: seq<T>, t: seq<T>, lo: nat, hi: nat)
    requires Rearranged(s, t, lo, hi)
    ensures |t| == |s|
  {
  }

  /** Outside the segment nothing moved. */
  lemma RearrangedOutside<T(!new)>(s: seq<T>, t: seq<T>, lo: nat, hi: nat, k: nat)
    requires Rearranged(s, t, lo, hi) && k < |t|
    ensures |t| == |s| && lo <= hi <= |s| && (k < lo || hi <= k ==> t[k] == s[k])
  {
    if k < lo {
      assert s[..lo][k] == t[..lo][k];
    } else if hi <= k {
      assert s[hi..][k - hi] == t[hi..][k - hi];
    }
  }

  /** Inside the segment every new element is an old one. */
  lemma RearrangedInside<T(!new)>(s: seq<T>, t: seq<T>, lo: nat, hi: nat, k: nat) returns (j: nat)
    requires Rearranged(s, t, lo, hi) && lo <= k < hi
    ensures |t| == |s| && lo <= j < hi && t[k] == s[j]
  {
    assert t[lo..hi][k - lo] in multiset(t[lo..hi]);
    assert t[k] in s[lo..hi];
    var i :| 0 <= i < hi - lo && s[lo..hi][i] == t[k];
    j := lo + i;
  }

  lemma RearrangedAll<T(!new)>(s: seq<T>, t: seq<T>)
    requires Rearranged(s, t, 0, |s|)
    ensures multiset(s) == multiset(t)
  {
    assert s[0..|s|] == s && t[0..|s|] == t;
  }
}

module Segments {
  import opened Orders

  /** An entry of the stack of rqsort. */
  datatype Segment = Segment(base: nat, count: nat, depth: nat)

  /** Both positions lie inside one of the segments. */
  predicate InOne(segs: seq<Segment>, i: int, j: int)
  {
    exists k :: 0 <= k < |segs| && Holds(segs[k], i, j)
  }

  predicate Holds(g: Segment, i: int, j: int) { g.base <= i <= j < g.base + g.count }

  predicate Apart(g: Segment, h: Segment) { g.base + g.count <= h.base || h.base + h.count <= g.base }

  predicate AllApart(segs: seq<Segment>, g: Segment)
  {
    forall k :: 0 <= k < |segs| ==> Apart(segs[k], g)
  }

  /** Every pair that is out of order lies inside one pending segment. */
  ghost predicate Settled<T(!new)>(cmp: (T, T) -> int, s: seq<T>, segs: seq<Segment>)
  {
    forall i, j :: 0 <= i < j < |s| && !InOne(segs, i, j) ==> cmp(s[i], s[j]) <= 0
  }

  /** What is left to do, as a number that every round of rqsort lowers. */
  function Pending(segs: seq<Segment>): nat
  {
    if segs == [] then 0 else Pending(segs[..|segs| - 1]) + segs[|segs| - 1].count + 1
  }

  lemma PendingPush(segs: seq<Segment>, g: Segment)
    ensures Pending(segs + [g]) == Pending(segs) + g.count + 1
  {
    assert (segs + [g])[..|segs|] == segs;
  }

  lemma InOnePush(segs: seq<Segment>, g: Segment, i: int, j: int)
    ensures InOne(segs + [g], i, j) <==> InOne(segs, i, j) || Holds(g, i, j)
  {
    var all := segs + [g];
    if Holds(g, i, j) {
      assert all[|segs|] == g;
    }
    if InOne(segs, i, j) {
      var k :| 0 <= k < |segs| && Holds(segs[k], i, j);
      assert all[k] == segs[k];
    }
  }

  /** Rearranging one pending segment leaves every pair outside it as it was. */
  lemma SettledPair<T(!new)>(cmp: (T, T) -> int, s: seq<T>, t: seq<T>, segs: seq<Segment>, g: Segment, i: nat, j: nat)
    requires Settled(cmp, s, segs + [g]) && AllApart(segs, g) && Rearranged(s, t, g.base, g.base + g.count)
    requires i < j < |t| && !InOne(segs, i, j) && !Holds(g, i, j)
    ensures cmp(t[i], t[j]) <= 0
  {
    hide Settled, Rearranged, Rearrangements, AllApart, InOne;
    var lo, hi := g.base, g.base + g.count;
    var i', j' := i, j;
    RearrangedOutside(s, t, lo, hi, i);
    RearrangedOutside(s, t, lo, hi, j);
    if lo <= i < hi {
      i' := RearrangedInside(s, t, lo, hi, i);
    } else if lo <= j < hi {
      j' := RearrangedInside(s, t, lo, hi, j);
    }
    NotInOne(segs, g, i, j, i', j');
    InOnePush(segs, g, i', j');
    SettledAt(cmp, s, segs + [g], i', j');
  }

  lemma SettledAt<T(!new)>(cmp: (T, T) -> int, s: seq<T>, segs: seq<Segment>, i: nat, j: nat)
    requires Settled(cmp, s, segs) && i < j < |s| && !InOne(segs, i, j)
    ensures cmp(s[i], s[j]) <= 0
  {
  }

  lemma NotInOne(segs: seq<Segment>, g: Segment, i: nat, j: nat, i': nat, j': nat)
    requires AllApart(segs, g) && !InOne(segs, i, j) && !Holds(g, i, j) && i < j
    requires i' == i || (g.base <= i < g.base + g.count && g.base <= i' < g.base + g.count)
    requires j' == j || (g.base <= j < g.base + g.count && g.base <= j' < g.base + g.count)
    requires i == i' || j == j'
    ensures !InOne(segs, i', j') && !Holds(g, i', j') && i' < j'
  {
    forall k | 0 <= k < |segs| ensures !Holds(segs[k], i', j') {
      assert Apart(segs[k], g);
      assert !Holds(segs[k], i, j);
    }
  }

  /** A pending segment that has been sorted is no longer pending. */
  lemma SettledDone<T(!new)>(cmp: (T, T) -> int, s: seq<T>, t: seq<T>, segs: seq<Segment>, g: Segment)
    requires Settled(cmp, s, segs + [g]) && AllApart(segs, g) && Rearranged(s, t, g.base, g.base + g.count)
    requires SortedIn(cmp, t, g.base, g.base + g.count)
    ensures Settled(cmp, t, segs)
  {
    hide Rearranged, Rearrangements, AllApart, InOne;
    forall i, j | 0 <= i < j < |t| && !InOne(segs, i, j)
      ensures cmp(t[i], t[j]) <= 0
    {
      if !Holds(g, i, j) {
        SettledPair(cmp, s, t, segs, g, i, j);
      }
    }
  }

  /** Three bands of a segment around a pivot value. */
  ghost predicate Partitioned<T(!new)>(cmp: (T, T) -> int, s: seq<T>, p: T, lo: nat, lt: nat, gt: nat, hi: nat)
  {
    lo <= lt < gt <= hi <= |s| &&
    (forall k :: lo <= k < lt ==> cmp(p, s[k]) > 0) &&
    (forall k :: lt <= k < gt ==> cmp(p, s[k]) == 0) &&
    (forall k :: gt <= k < hi ==> cmp(p, s[k]) < 0)
  }

  lemma PartitionedPair<T(!new)>(cmp: (T, T) -> int, s: seq<T>, p: T, lo: nat, lt: nat, gt: nat, hi: nat, i: nat, j: nat)
    requires TotalPreorder(cmp) && Partitioned(cmp, s, p, lo, lt, gt, hi)
    requires lo <= i < j < hi && !(j < lt) && !(gt <= i)
    ensures cmp(s[i], s[j]) <= 0
  {
    hide TotalPreorder;
    Flip(cmp, p, s[i]);
    Flip(cmp, p, s[j]);
    Trans(cmp, s[i], p, s[j]);
  }

  /** After the partition only the outer bands are pending, in whichever order they are kept. */
  lemma SettledSplit<T(!new)>(cmp: (T, T) -> int, s: seq<T>, t: seq<T>, segs: seq<Segment>, g: Segment, p: T, lt: nat, gt: nat,
                              x: Segment, y: Segment)
    requires TotalPreorder(cmp) && Settled(cmp, s, segs + [g]) && AllApart(segs, g) &&
             Rearranged(s, t, g.base, g.base + g.count) && Partitioned(cmp, t, p, g.base, lt, gt, g.base + g.count)
    requires x.base == g.base && x.count == lt - g.base && y.base == gt && y.count == g.base + g.count - gt
    ensures Settled(cmp, t, segs + [x] + [y]) && Settled(cmp, t, segs + [y] + [x])
  {
    hide Rearranged, Rearrangements, AllApart, InOne, TotalPreorder, Partitioned;
    Bands(cmp, t, p, g.base, lt, gt, g.base + g.count);
    forall i, j | 0 <= i < j < |t| && (!InOne(segs + [x] + [y], i, j) || !InOne(segs + [y] + [x], i, j))
      ensures cmp(t[i], t[j]) <= 0
    {
      InOnePush(segs, x, i, j);
      InOnePush(segs + [x], y, i, j);
      InOnePush(segs, y, i, j);
      InOnePush(segs + [y], x, i, j);
      if Holds(g, i, j) {
        PartitionedPair(cmp, t, p, g.base, lt, gt, g.base + g.count, i, j);
      } else {
        SettledPair(cmp, s, t, segs, g, i, j);
      }
    }
  }

  lemma Bands<T(!new)>(cmp: (T, T) -> int, s: seq<T>, p: T, lo: nat, lt: nat, gt: nat, hi: nat)
    requires Partitioned(cmp, s, p, lo, lt, gt, hi)
    ensures lo <= lt < gt <= hi <= |s|
  {
  }

  lemma ApartSplit(segs: seq<Segment>, g: Segment, x: Segment, y: Segment)
    requires AllApart(segs, g) && g.base <= x.base && x.base + x.count <= g.base + g.count
    requires g.base <= y.base && y.base + y.count <= g.base + g.count && Apart(x, y)
    ensures AllApart(segs + [x], y) && AllApart(segs, x)
  {
    forall k | 0 <= k < |segs| ensures Apart(segs[k], x) && Apart(segs[k], y) {
      assert Apart(segs[k], g);
    }
  }

  lemma SettledStart<T(!new)>(cmp: (T, T) -> int, s: seq<T>)
    ensures Settled(cmp, s, [Segment(0, |s|, 0)])
  {
    forall i, j | 0 <= i < j < |s| ensures InOne([Segment(0, |s|, 0)], i, j) {
      assert Holds([Segment(0, |s|, 0)][0], i, j);
    }
  }

  lemma SettledEnd<T(!new)>(cmp: (T, T) -> int, s: seq<T>)
    requires Settled(cmp, s, [])
    ensures SortedIn(cmp, s, 0, |s|)
  {
    forall i, j | 0 <= i < j < |s| ensures cmp(s[i], s[j]) <= 0 {
      assert !InOne([], i, j);
    }
  }
}

module Heaps {
  import opened Orders

  predicate Child(p: int, c: int) { c == 2 * p + 1 || c == 2 * p + 2 }

  ghost predicate AtLeast<T(!new)>(cmp: (T, T) -> int, s: seq<T>, i: int, j: int)
  {
    0 <= i < |s| && 0 <= j < |s| && cmp(s[j], s[i]) <= 0
  }

  /** From node `i` on, no node of the heap is below one of its children. */
  ghost predicate Heap<T(!new)>(cmp: (T, T) -> int, s: seq<T>, lo: nat, i: nat, n: nat)
  {
    forall p, c :: i <= p && Child(p, c) && c < n ==> AtLeast(cmp, s, lo + p, lo + c)
  }

  /** The same, but for the children of `r`, which its parent still dominates. */
  ghost predicate HeapBut<T(!new)>(cmp: (T, T) -> int, s: seq<T>, lo: nat, i: nat, n: nat, r: nat)
  {
    (forall p, c :: i <= p && p != r && Child(p, c) && c < n ==> AtLeast(cmp, s, lo + p, lo + c)) &&
    (forall p, c :: i <= p && Child(p, r) && Child(r, c) && c < n ==> AtLeast(cmp, s, lo + p, lo + c))
  }

  ghost predicate Largest<T(!new)>(cmp: (T, T) -> int, s: seq<T>, lo: nat, n: nat, r: nat, c: nat)
  {
    Child(r, c) && c < n && forall q :: Child(r, q) && q < n ==> AtLeast(cmp, s, lo + c, lo + q)
  }

  lemma SiftStep<T(!new)>(cmp: (T, T) -> int, s: seq<T>, lo: nat, i: nat, n: nat, r: nat, c: nat)
    requires TotalPreorder(cmp) && i <= r && lo + n <= |s|
    requires HeapBut(cmp, s, lo, i, n, r) && Largest(cmp, s, lo, n, r, c) && AtLeast(cmp, s, lo + c, lo + r)
    ensures HeapBut(cmp, Swapped(s, lo + r, lo + c), lo, i, n, c)
  {
    hide TotalPreorder;
    var t := Swapped(s, lo + r, lo + c);
    forall p, q | i <= p && p != c && Child(p, q) && q < n ensures AtLeast(cmp, t, lo + p, lo + q) {
      if p == r {
        assert AtLeast(cmp, s, lo + c, lo + q);
      } else if q == r {
        assert AtLeast(cmp, s, lo + p, lo + c);
      } else {
        assert AtLeast(cmp, s, lo + p, lo + q);
      }
    }
    forall p, q | i <= p && Child(p, c) && Child(c, q) && q < n ensures AtLeast(cmp, t, lo + p, lo + q) {
      assert AtLeast(cmp, s, lo + c, lo + q);
    }
  }

  lemma SiftStops<T(!new)>(cmp: (T, T) -> int, s: seq<T>, lo: nat, i: nat, n: nat, r: nat, c: nat)
    requires TotalPreorder(cmp) && HeapBut(cmp, s, lo, i, n, r) && lo + n <= |s|
    requires 2 * r + 1 >= n || (Largest(cmp, s, lo, n, r, c) && cmp(s[lo + r], s[lo + c]) > 0)
    ensures Heap(cmp, s, lo, i, n)
  {
    hide TotalPreorder;
    forall p, q | i <= p && Child(p, q) && q < n ensures AtLeast(cmp, s, lo + p, lo + q) {
      if p == r {
        assert AtLeast(cmp, s, lo + c, lo + q);
        Flip(cmp, s[lo + r], s[lo + c]);
        Trans(cmp, s[lo + q], s[lo + c], s[lo + r]);
      }
    }
  }

  lemma LargestChild<T(!new)>(cmp: (T, T) -> int, s: seq<T>, lo: nat, n: nat, r: nat)
    requires TotalPreorder(cmp) && lo + n <= |s| && 2 * r + 1 < n
    ensures var c := 2 * r + 1;
            Largest(cmp, s, lo, n, r, if c < n - 1 && cmp(s[lo + c], s[lo + c + 1]) <= 0 then c + 1 else c)
  {
    hide TotalPreorder;
    var c := 2 * r + 1;
    Flip(cmp, s[lo + c], s[lo + c]);
    if c + 1 < n {
      Flip(cmp, s[lo + c + 1], s[lo + c + 1]);
      Flip(cmp, s[lo + c], s[lo + c + 1]);
    }
  }

  /** The root of a heap is its largest element. */
  lemma {:induction false} RootIsLargest<T(!new)>(cmp: (T, T) -> int, s: seq<T>, lo: nat, n: nat, k: nat)
    requires TotalPreorder(cmp) && Heap(cmp, s, lo, 0, n) && lo + n <= |s| && k < n
    ensures cmp(s[lo + k], s[lo]) <= 0
  {
    hide TotalPreorder;
    if k == 0 {
      Flip(cmp, s[lo], s[lo]);
    } else {
      var p := (k - 1) / 2;
      assert Child(p, k);
      assert AtLeast(cmp, s, lo + p, lo + k);
      RootIsLargest(cmp, s, lo, n, p);
      Trans(cmp, s[lo + k], s[lo + p], s[lo]);
    }
  }

  /** The positions from `k` on are final. */
  ghost predicate TailSorted<T(!new)>(cmp: (T, T) -> int, s: seq<T>, lo: nat, k: nat, n: nat)
  {
    lo + n <= |s| && forall i, j :: lo <= i < j < lo + n && lo + k <= j ==> cmp(s[i], s[j]) <= 0
  }

  lemma TailGrows<T(!new)>(cmp: (T, T) -> int, s: seq<T>, lo: nat, i: nat, n: nat)
    requires TotalPreorder(cmp) && i < n && TailSorted(cmp, s, lo, i + 1, n) && Heap(cmp, s, lo, 0, i + 1)
    ensures TailSorted(cmp, Swapped(s, lo, lo + i), lo, i, n) && HeapBut(cmp, Swapped(s, lo, lo + i), lo, 0, i, 0)
  {
    hide TotalPreorder;
    var t := Swapped(s, lo, lo + i);
    forall x, y | lo <= x < y < lo + n && lo + i <= y ensures cmp(t[x], t[y]) <= 0 {
      RootIsLargest(cmp, s, lo, i + 1, if x - lo <= i then x - lo else 0);
      RootIsLargest(cmp, s, lo, i + 1, i);
    }
    forall p, c | p != 0 && 0 <= p && Child(p, c) && c < i ensures AtLeast(cmp, t, lo + p, lo + c) {
      assert AtLeast(cmp, s, lo + p, lo + c);
    }
  }

  lemma TailKept<T(!new)>(cmp: (T, T) -> int, s: seq<T>, t: seq<T>, lo: nat, i: nat, n: nat)
    requires TailSorted(cmp, s, lo, i, n) && Rearranged(s, t, lo, lo + i) && i <= n
    ensures TailSorted(cmp, t, lo, i, n)
  {
    hide Rearranged, Rearrangements;
    RearrangedLength(s, t, lo, lo + i);
    forall x, y | lo <= x < y < lo + n && lo + i <= y ensures cmp(t[x], t[y]) <= 0 {
      RearrangedOutside(s, t, lo, lo + i, y);
      if x < lo + i {
        var x' := RearrangedInside(s, t, lo, lo + i, x);
      } else {
        RearrangedOutside(s, t, lo, lo + i, x);
      }
    }
  }

  method Swap<T(!new)>(a: array<T>, i: nat, j: nat, ghost lo: nat, ghost hi: nat)
    requires lo <= i < hi <= a.Length && lo <= j < hi
    modifies a
    ensures a[..] == Swapped(old(a[..]), i, j) && Rearranged(old(a[..]), a[..], lo, hi)
  {
    SwapRearranges(a[..], i, j, lo, hi);
    a[i], a[j] := a[j], a[i];
  }

  /** The inner loop of heapsortx. */
  method Sift<T(!new)>(a: array<T>, cmp: (T, T) -> int, lo: nat, i: nat, n: nat)
    requires TotalPreorder(cmp) && i <= n && lo + n <= a.Length && HeapBut(cmp, a[..], lo, i, n, i)
    modifies a
    ensures Heap(cmp, a[..], lo, i, n) && Rearranged(old(a[..]), a[..], lo, lo + n)
  {
    hide TotalPreorder, HeapBut, Heap, Rearranged, Rearrangements, Largest, Child;
    var r := i;
    RearrangedSame(a[..], lo, lo + n);
    while 2 * r + 1 < n
      invariant i <= r && HeapBut(cmp, a[..], lo, i, n, r) && Rearranged(old(a[..]), a[..], lo, lo + n)
      decreases n - r
    {
      var c := 2 * r + 1;
      LargestChild(cmp, a[..], lo, n, r);
      if c < n - 1 && cmp(a[lo + c], a[lo + c + 1]) <= 0 {
        c := c + 1;
      }
      if cmp(a[lo + r], a[lo + c]) > 0 {
        SiftStops(cmp, a[..], lo, i, n, r, c);
        return;
      }
      SiftStep(cmp, a[..], lo, i, n, r, c);
      ghost var was := a[..];
      Swap(a, lo + r, lo + c, lo, lo + n);
      RearrangedTrans(old(a[..]), was, a[..], lo, lo + n);
      r := c;
    }
    SiftStops(cmp, a[..], lo, i, n, r, 0);
  }

  lemma HeapPrepend<T(!new)>(cmp: (T, T) -> int, s: seq<T>, lo: nat, i: nat, n: nat)
    requires Heap(cmp, s, lo, i + 1, n)
    ensures HeapBut(cmp, s, lo, i, n, i)
  {
  }

  /** heapsortx on the segment of `n` elements that starts at `lo`. */
  method HeapSort<T(!new)>(a: array<T>, cmp: (T, T) -> int, lo: nat, n: nat)
    requires TotalPreorder(cmp) && lo + n <= a.Length
    modifies a
    ensures Rearranged(old(a[..]), a[..], lo, lo + n) && SortedIn(cmp, a[..], lo, lo + n)
  {
    hide TotalPreorder, HeapBut, Heap, Rearranged, Rearrangements;
    RearrangedSame(a[..], lo, lo + n);
    if n > 1 {
      var i := n / 2;
      LeavesAreHeap(cmp, a[..], lo, n);
      while i > 0
        invariant 0 <= i <= n / 2 && Heap(cmp, a[..], lo, i, n) && Rearranged(old(a[..]), a[..], lo, lo + n)
      {
        i := i - 1;
        HeapPrepend(cmp, a[..], lo, i, n);
        ghost var was := a[..];
        Sift(a, cmp, lo, i, n);
        RearrangedTrans(old(a[..]), was, a[..], lo, lo + n);
      }
      SortHeap(a, cmp, lo, n, old(a[..]));
    }
  }

  lemma LeavesAreHeap<T(!new)>(cmp: (T, T) -> int, s: seq<T>, lo: nat, n: nat)
    ensures Heap(cmp, s, lo, n / 2, n)
  {
  }

  /** The second loop of heapsortx. */
  method SortHeap<T(!new)>(a: array<T>, cmp: (T, T) -> int, lo: nat, n: nat, ghost was: seq<T>)
    requires TotalPreorder(cmp) && 1 < n && lo + n <= a.Length && Heap(cmp, a[..], lo, 0, n)
    requires Rearranged(was, a[..], lo, lo + n)
    modifies a
    ensures Rearranged(was, a[..], lo, lo + n) && SortedIn(cmp, a[..], lo, lo + n)
  {
    hide TotalPreorder, HeapBut, Heap, Rearranged, Rearrangements;
    var i := n - 1;
    while i > 0
      invariant 0 <= i < n && Heap(cmp, a[..], lo, 0, i + 1) && TailSorted(cmp, a[..], lo, i + 1, n)
      invariant Rearranged(was, a[..], lo, lo + n)
    {
      TailGrows(cmp, a[..], lo, i, n);
      ghost var s := a[..];
      Swap(a, lo, lo + i, lo, lo + n);
      RearrangedTrans(was, s, a[..], lo, lo + n);
      s := a[..];
      Sift(a, cmp, lo, 0, i);
      TailKept(cmp, s, a[..], lo, i, n);
      RearrangedWider(s, a[..], lo, lo + i, lo, lo + n);
      RearrangedTrans(was, s, a[..], lo, lo + n);
      i := i - 1;
    }
  }
}

module Partition {
  import opened Orders
  import opened Segments
  import opened Heaps

  /** The four bands built by the partition loop around the pivot `p`, which sits at `lo`: equal, smaller,
      (not yet looked at), greater, equal. */
  ghost predicate Bands4<T(!new)>(cmp: (T, T) -> int, s: seq<T>, p: T, lo: nat, lt: int, i: int, j: int, gt: int, hi: int)
  {
    lo < lt <= i <= j <= gt <= hi <= |s| && s[lo] == p &&
    (forall k :: lo <= k < lt ==> cmp(p, s[k]) == 0) &&
    (forall k :: lt <= k < i ==> cmp(p, s[k]) > 0) &&
    (forall k :: j <= k < gt ==> cmp(p, s[k]) < 0) &&
    (forall k :: gt <= k < hi ==> cmp(p, s[k]) == 0)
  }

  lemma BandsStart<T(!new)>(cmp: (T, T) -> int, s: seq<T>, lo: nat, hi: nat)
    requires TotalPreorder(cmp) && lo < hi <= |s|
    ensures Bands4(cmp, s, s[lo], lo, lo + 1, lo + 1, hi, hi, hi)
  {
    Flip(cmp, s[lo], s[lo]);
  }

  lemma BandsOrder<T(!new)>(cmp: (T, T) -> int, s: seq<T>, p: T, lo: nat, lt: int, i: int, j: int, gt: int, hi: int)
    requires Bands4(cmp, s, p, lo, lt, i, j, gt, hi)
    ensures lo < lt <= i <= j <= gt <= hi <= |s| && s[lo] == p
  {
  }

  lemma SmallerStep<T(!new)>(cmp: (T, T) -> int, s: seq<T>, p: T, lo: nat, lt: int, i: int, j: int, gt: int, hi: int)
    requires Bands4(cmp, s, p, lo, lt, i, j, gt, hi) && i < j
    ensures cmp(p, s[i]) > 0 ==> Bands4(cmp, s, p, lo, lt, i + 1, j, gt, hi)
    ensures cmp(p, s[i]) == 0 ==> Bands4(cmp, Swapped(s, lt, i), p, lo, lt + 1, i + 1, j, gt, hi)
  {
  }

  lemma GreaterStep<T(!new)>(cmp: (T, T) -> int, s: seq<T>, p: T, lo: nat, lt: int, i: int, j: int, gt: int, hi: int)
    requires Bands4(cmp, s, p, lo, lt, i, j + 1, gt, hi) && i < j
    ensures cmp(p, s[j]) < 0 ==> Bands4(cmp, s, p, lo, lt, i, j, gt, hi)
    ensures cmp(p, s[j]) == 0 ==> Bands4(cmp, Swapped(s, gt - 1, j), p, lo, lt, i, j, gt - 1, hi)
    ensures Swapped(s, gt - 1, j)[i] == s[i]
  {
  }

  lemma ExchangeStep<T(!new)>(cmp: (T, T) -> int, s: seq<T>, p: T, lo: nat, lt: int, i: int, j: int, gt: int, hi: int)
    requires Bands4(cmp, s, p, lo, lt, i, j + 1, gt, hi) && i < j && cmp(p, s[i]) < 0 && cmp(p, s[j]) > 0
    ensures Bands4(cmp, Swapped(s, i, j), p, lo, lt, i + 1, j, gt, hi)
  {
  }

  lemma BandsMeet<T(!new)>(cmp: (T, T) -> int, s: seq<T>, p: T, lo: nat, lt: int, i: int, j: int, gt: int, hi: int)
    requires Bands4(cmp, s, p, lo, lt, i, j + 1, gt, hi) && j <= i && (i == j ==> i < |s| && cmp(p, s[i]) < 0)
    ensures Bands4(cmp, s, p, lo, lt, i, i, gt, hi)
  {
  }

  /** The upward scan. */
  method ScanUp<T(!new)>(a: array<T>, cmp: (T, T) -> int, ghost p: T, lo: nat, lt0: nat, i0: nat, j: nat, ghost gt: nat, ghost hi: nat,
                         ghost was: seq<T>) returns (lt: nat, i: nat)
    requires Bands4(cmp, a[..], p, lo, lt0, i0, j, gt, hi) && Rearranged(was, a[..], lo, hi)
    modifies a
    ensures Bands4(cmp, a[..], p, lo, lt, i, j, gt, hi) && Rearranged(was, a[..], lo, hi)
    ensures i0 <= i <= j <= a.Length && (i < j ==> cmp(p, a[i]) < 0)
  {
    hide Bands4, Rearranged, Rearrangements, Swapped;
    lt, i := lt0, i0;
    BandsOrder(cmp, a[..], p, lo, lt, i, j, gt, hi);
    while i < j && cmp(a[lo], a[i]) >= 0
      invariant i0 <= i <= j && lo < j <= a.Length && a[lo] == p && Bands4(cmp, a[..], p, lo, lt, i, j, gt, hi) && Rearranged(was, a[..], lo, hi)
    {
      ghost var s := a[..];
      BandsOrder(cmp, s, p, lo, lt, i, j, gt, hi);
      SmallerStep(cmp, s, p, lo, lt, i, j, gt, hi);
      if cmp(a[lo], a[i]) == 0 {
        Swap(a, lt, i, lo, hi);
        RearrangedTrans(was, s, a[..], lo, hi);
        lt := lt + 1;
      }
      i := i + 1;
      BandsOrder(cmp, a[..], p, lo, lt, i, j, gt, hi);
    }
  }

  /** The downward scan; it starts by moving the bound. */
  method ScanDown<T(!new)>(a: array<T>, cmp: (T, T) -> int, ghost p: T, lo: nat, ghost lt: nat, i: nat, j0: nat, gt0: nat, ghost hi: nat,
                           ghost was: seq<T>) returns (j: nat, gt: nat)
    requires Bands4(cmp, a[..], p, lo, lt, i, j0, gt0, hi) && Rearranged(was, a[..], lo, hi)
    requires i < j0 <= a.Length ==> cmp(p, a[i]) < 0
    modifies a
    ensures Bands4(cmp, a[..], p, lo, lt, i, j + 1, gt, hi) && Rearranged(was, a[..], lo, hi)
    ensures i <= j + 1 <= j0 <= a.Length && (i < j0 ==> i <= j && cmp(p, a[i]) < 0) && (i < j ==> cmp(p, a[j]) > 0)
  {
    hide Bands4, Rearranged, Rearrangements, Swapped;
    BandsOrder(cmp, a[..], p, lo, lt, i, j0, gt0, hi);
    j, gt := j0 - 1, gt0;
    while i < j && cmp(a[lo], a[j]) <= 0
      invariant i <= j + 1 <= j0 <= a.Length && lo < i && a[lo] == p && (i < j0 ==> i <= j && cmp(p, a[i]) < 0)
      invariant Bands4(cmp, a[..], p, lo, lt, i, j + 1, gt, hi) && Rearranged(was, a[..], lo, hi)
    {
      ghost var s := a[..];
      BandsOrder(cmp, s, p, lo, lt, i, j + 1, gt, hi);
      GreaterStep(cmp, s, p, lo, lt, i, j, gt, hi);
      if cmp(a[lo], a[j]) == 0 {
        gt := gt - 1;
        Swap(a, gt, j, lo, hi);
        RearrangedTrans(was, s, a[..], lo, hi);
        assert a[..][i] == s[i];
      }
      BandsOrder(cmp, a[..], p, lo, lt, i, j, gt, hi);
      j := j - 1;
    }
  }

  /** The partition loop. */
  method FourBands<T(!new)>(a: array<T>, cmp: (T, T) -> int, lo: nat, hi: nat) returns (ghost p: T, lt: nat, i: nat, gt: nat)
    requires TotalPreorder(cmp) && lo < hi <= a.Length
    modifies a
    ensures Bands4(cmp, a[..], p, lo, lt, i, i, gt, hi) && Rearranged(old(a[..]), a[..], lo, hi)
  {
    hide TotalPreorder, Bands4, Rearranged, Rearrangements, Swapped;
    ghost var was := a[..];
    RearrangedSame(was, lo, hi);
    p := a[lo];
    BandsStart(cmp, a[..], lo, hi);
    lt, i, gt := lo + 1, lo + 1, hi;
    var j := hi;
    while true
      invariant i <= j && Bands4(cmp, a[..], p, lo, lt, i, j, gt, hi) && Rearranged(was, a[..], lo, hi)
      decreases j - i
    {
      var j0 := j;
      lt, i := ScanUp(a, cmp, p, lo, lt, i, j, gt, hi, was);
      j, gt := ScanDown(a, cmp, p, lo, lt, i, j, gt, hi, was);
      if i >= j {
        BandsMeet(cmp, a[..], p, lo, lt, i, j, gt, hi);
        return;
      }
      ghost var s := a[..];
      BandsOrder(cmp, s, p, lo, lt, i, j + 1, gt, hi);
      ExchangeStep(cmp, s, p, lo, lt, i, j, gt, hi);
      Swap(a, i, j, lo, hi);
      RearrangedTrans(was, s, a[..], lo, hi);
      i := i + 1;
      BandsOrder(cmp, a[..], p, lo, lt, i, j, gt, hi);
    }
  }

  /** `t` is `s` with two blocks of `n` elements exchanged. */
  ghost predicate BlocksSwapped<T(!new)>(s: seq<T>, t: seq<T>, x: nat, y: nat, n: nat)
  {
    |s| == |t| && x + n <= y && y + n <= |s| && forall k :: 0 <= k < |s| ==> t[k] == s[Partner(x, y, n, k)]
  }

  /** The position that changes places with `k`. */
  function Partner(x: nat, y: nat, n: nat, k: nat): (j: nat)
    requires x + n <= y
  {
    if x <= k < x + n then y + (k - x) else if y <= k < y + n then x + (k - y) else k
  }

  lemma BlocksStep<T(!new)>(s: seq<T>, t: seq<T>, x: nat, y: nat, n: nat)
    requires BlocksSwapped(s, t, x, y, n) && x + n + 1 <= y && y + n + 1 <= |s|
    ensures BlocksSwapped(s, Swapped(t, x + n, y + n), x, y, n + 1)
  {
  }

  method SwapBlock<T(!new)>(a: array<T>, x: nat, y: nat, n: nat, ghost lo: nat, ghost hi: nat)
    requires lo <= x && x + n <= y && y + n <= hi <= a.Length
    modifies a
    ensures BlocksSwapped(old(a[..]), a[..], x, y, n) && Rearranged(old(a[..]), a[..], lo, hi)
  {
    hide BlocksSwapped, Rearranged, Rearrangements, Swapped;
    ghost var was := a[..];
    RearrangedSame(was, lo, hi);
    var k := 0;
    assert BlocksSwapped(was, was, x, y, 0) by {
      NoBlocks(was, x, y);
    }
    while k < n
      invariant k <= n && BlocksSwapped(was, a[..], x, y, k) && Rearranged(was, a[..], lo, hi)
    {
      ghost var s := a[..];
      BlocksStep(was, s, x, y, k);
      Swap(a, x + k, y + k, lo, hi);
      RearrangedTrans(was, s, a[..], lo, hi);
      k := k + 1;
    }
  }

  lemma NoBlocks<T(!new)>(s: seq<T>, x: nat, y: nat)
    requires x <= y <= |s|
    ensures BlocksSwapped(s, s, x, y, 0)
  {
  }

  function Min(x: nat, y: nat): nat { if x > y then y else x }

  /** The bands after the first exchange: smaller, equal, greater, equal. */
  ghost predicate Gathered<T(!new)>(cmp: (T, T) -> int, s: seq<T>, p: T, lo: nat, lt: nat, i: nat, gt: nat, hi: nat)
  {
    lo <= lt < i <= gt <= hi <= |s| &&
    (forall k :: lo <= k < lt ==> cmp(p, s[k]) > 0) &&
    (forall k :: lt <= k < i ==> cmp(p, s[k]) == 0) &&
    (forall k :: i <= k < gt ==> cmp(p, s[k]) < 0) &&
    (forall k :: gt <= k < hi ==> cmp(p, s[k]) == 0)
  }

  lemma GatherLow<T(!new)>(cmp: (T, T) -> int, s: seq<T>, t: seq<T>, p: T, lo: nat, lt: nat, i: nat, gt: nat, hi: nat, span: nat)
    requires Bands4(cmp, s, p, lo, lt, i, i, gt, hi) && span == Min(lt - lo, i - lt)
    requires BlocksSwapped(s, t, lo, i - span, span)
    ensures Gathered(cmp, t, p, lo, lo + (i - lt), i, gt, hi)
  {
  }

  lemma GatherHigh<T(!new)>(cmp: (T, T) -> int, s: seq<T>, t: seq<T>, p: T, lo: nat, lt: nat, i: nat, gt: nat, hi: nat, span: nat)
    requires Gathered(cmp, s, p, lo, lt, i, gt, hi) && span == Min(hi - gt, gt - i)
    requires BlocksSwapped(s, t, i, hi - span, span)
    ensures Partitioned(cmp, t, p, lo, lt, hi - (gt - i), hi)
  {
  }

  /** Of three positions, one whose element lies between the two others. */
  function Med3<T>(cmp: (T, T) -> int, s: seq<T>, a: nat, b: nat, c: nat): (m: nat)
    requires a < |s| && b < |s| && c < |s|
    ensures m == a || m == b || m == c
  {
    if cmp(s[a], s[b]) < 0 then
      if cmp(s[b], s[c]) < 0 then b else if cmp(s[a], s[c]) < 0 then c else a
    else
      if cmp(s[b], s[c]) > 0 then b else if cmp(s[a], s[c]) < 0 then a else c
  }

  ghost predicate Between<T(!new)>(cmp: (T, T) -> int, x: T, m: T, y: T)
  {
    (cmp(x, m) <= 0 && cmp(m, y) <= 0) || (cmp(y, m) <= 0 && cmp(m, x) <= 0)
  }

  lemma Med3IsMedian<T(!new)>(cmp: (T, T) -> int, s: seq<T>, a: nat, b: nat, c: nat)
    requires TotalPreorder(cmp) && a < |s| && b < |s| && c < |s|
    ensures var m := Med3(cmp, s, a, b, c);
            (m == a && Between(cmp, s[b], s[a], s[c])) || (m == b && Between(cmp, s[a], s[b], s[c])) ||
            (m == c && Between(cmp, s[a], s[c], s[b]))
  {
    hide TotalPreorder;
    Flip(cmp, s[a], s[b]);
    Flip(cmp, s[b], s[c]);
    Flip(cmp, s[a], s[c]);
  }

  /** The two block exchanges that bring the elements equal to the pivot to the middle. */
  method GatherEqual<T(!new)>(a: array<T>, ghost cmp: (T, T) -> int, ghost p: T, lo: nat, lt0: nat, i: nat, gt0: nat, hi: nat,
                              ghost was: seq<T>) returns (lt: nat, gt: nat)
    requires Bands4(cmp, a[..], p, lo, lt0, i, i, gt0, hi) && Rearranged(was, a[..], lo, hi)
    modifies a
    ensures Partitioned(cmp, a[..], p, lo, lt, gt, hi) && Rearranged(was, a[..], lo, hi)
    ensures lo <= lt < gt <= hi
  {
    hide Bands4, Rearranged, Rearrangements, Partitioned, Gathered, BlocksSwapped;
    BandsOrder(cmp, a[..], p, lo, lt0, i, i, gt0, hi);
    var span := Min(lt0 - lo, i - lt0);
    ghost var s := a[..];
    SwapBlock(a, lo, i - span, span, lo, hi);
    RearrangedTrans(was, s, a[..], lo, hi);
    GatherLow(cmp, s, a[..], p, lo, lt0, i, gt0, hi, span);
    lt := lo + (i - lt0);
    span := Min(hi - gt0, gt0 - i);
    s := a[..];
    SwapBlock(a, i, hi - span, span, lo, hi);
    RearrangedTrans(was, s, a[..], lo, hi);
    GatherHigh(cmp, s, a[..], p, lo, lt, i, gt0, hi, span);
    gt := hi - (gt0 - i);
    Bands(cmp, a[..], p, lo, lt, gt, hi);
  }

  /** One round of rqsort on a segment of more than six elements: pivot, partition, and the block exchanges. */
  method ThreeWay<T(!new)>(a: array<T>, cmp: (T, T) -> int, lo: nat, n: nat) returns (ghost p: T, lt: nat, gt: nat)
    requires TotalPreorder(cmp) && n > 6 && lo + n <= a.Length
    modifies a
    ensures Partitioned(cmp, a[..], p, lo, lt, gt, lo + n) && Rearranged(old(a[..]), a[..], lo, lo + n)
    ensures lo <= lt < gt <= lo + n
  {
    hide TotalPreorder, Bands4, Rearranged, Rearrangements, Swapped, Partitioned;
    ghost var was := a[..];
    var m4 := n / 4;
    var m := Med3(cmp, a[..], lo + m4, lo + 2 * m4, lo + 3 * m4);
    Swap(a, lo, m, lo, lo + n);
    ghost var s := a[..];
    var i;
    p, lt, i, gt := FourBands(a, cmp, lo, lo + n);
    RearrangedTrans(was, s, a[..], lo, lo + n);
    lt, gt := GatherEqual(a, cmp, p, lo, lt, i, gt, lo + n, was);
  }
}

module Sorting {
  import opened Orders
  import opened Segments
  import opened Heaps
  import opened Partition

  /** Sorted but for the element at `x`, which may still have to move down. */
  ghost predicate SortedBut<T(!new)>(cmp: (T, T) -> int, s: seq<T>, lo: nat, hi: nat, x: nat)
  {
    lo <= x < hi <= |s| && forall i, j :: lo <= i < j < hi && j != x ==> cmp(s[i], s[j]) <= 0
  }

  lemma MoveDown<T(!new)>(cmp: (T, T) -> int, s: seq<T>, lo: nat, hi: nat, x: nat)
    requires TotalPreorder(cmp) && SortedBut(cmp, s, lo, hi, x) && lo < x && cmp(s[x - 1], s[x]) > 0
    ensures SortedBut(cmp, Swapped(s, x, x - 1), lo, hi, x - 1)
  {
    hide TotalPreorder;
    Flip(cmp, s[x - 1], s[x]);
  }

  lemma Placed<T(!new)>(cmp: (T, T) -> int, s: seq<T>, lo: nat, hi: nat, x: nat)
    requires TotalPreorder(cmp) && SortedBut(cmp, s, lo, hi, x) && (lo == x || cmp(s[x - 1], s[x]) <= 0)
    ensures SortedIn(cmp, s, lo, hi)
  {
    hide TotalPreorder;
    forall i, j | lo <= i < j < hi ensures cmp(s[i], s[j]) <= 0 {
      if j == x && i < x - 1 {
        Trans(cmp, s[i], s[x - 1], s[x]);
      }
    }
  }

  /** The insertion sort that finishes a short segment. */
  method InsertionSort<T(!new)>(a: array<T>, cmp: (T, T) -> int, lo: nat, n: nat)
    requires TotalPreorder(cmp) && lo + n <= a.Length
    modifies a
    ensures Rearranged(old(a[..]), a[..], lo, lo + n) && SortedIn(cmp, a[..], lo, lo + n)
  {
    hide TotalPreorder, Rearranged, Rearrangements, Swapped, SortedBut;
    ghost var was := a[..];
    RearrangedSame(was, lo, lo + n);
    var i := lo + 1;
    while i < lo + n
      invariant lo < i && (i <= lo + n || n == 0) && SortedIn(cmp, a[..], lo, if n == 0 then lo else i) && Rearranged(was, a[..], lo, lo + n)
    {
      var j := i;
      OneMore(cmp, a[..], lo, i);
      while j > lo && cmp(a[j - 1], a[j]) > 0
        invariant lo <= j <= i && SortedBut(cmp, a[..], lo, i + 1, j) && Rearranged(was, a[..], lo, lo + n)
      {
        ghost var s := a[..];
        MoveDown(cmp, s, lo, i + 1, j);
        Swap(a, j, j - 1, lo, lo + n);
        RearrangedTrans(was, s, a[..], lo, lo + n);
        j := j - 1;
      }
      Placed(cmp, a[..], lo, i + 1, j);
      i := i + 1;
    }
  }

  lemma OneMore<T(!new)>(cmp: (T, T) -> int, s: seq<T>, lo: nat, i: nat)
    requires lo < i < |s| && SortedIn(cmp, s, lo, i)
    ensures SortedBut(cmp, s, lo, i + 1, i)
  {
  }

  const STACK_SLOTS := 50

  /** Depths on the stack rise from bottom to top, from at least 1 to at most `d`. */
  predicate Rising(segs: seq<Segment>, d: int)
  {
    segs != [] ==> |segs| <= segs[|segs| - 1].depth <= d && Rising(segs[..|segs| - 1], segs[|segs| - 1].depth - 1)
  }

  lemma RisingPush(segs: seq<Segment>, d: int, g: Segment)
    requires Rising(segs, d) && g.depth == d + 1 && 0 <= d
    ensures Rising(segs + [g], d + 1) && |segs| <= d
  {
    assert (segs + [g])[..|segs|] == segs;
  }

  lemma RisingPop(segs: seq<Segment>, d: int)
    requires segs != [] && (Rising(segs, d) || (|segs| == 1 && segs[0].depth == 0))
    ensures Rising(segs[..|segs| - 1], segs[|segs| - 1].depth)
    ensures segs[|segs| - 1].depth <= d || segs[|segs| - 1].depth == 0
  {
    if |segs| > 1 {
      var front := segs[..|segs| - 1];
      assert front != [];
    }
  }

  lemma RisingMore(segs: seq<Segment>, d: int, e: int)
    requires Rising(segs, d) && d <= e
    ensures Rising(segs, e)
  {
  }

  /** Pending segments are disjoint and inside the array. */
  predicate Separate(segs: seq<Segment>, n: nat)
  {
    segs != [] ==>
      var k := |segs| - 1;
      segs[k].base + segs[k].count <= n && AllApart(segs[..k], segs[k]) && Separate(segs[..k], n)
  }

  lemma SeparatePush(segs: seq<Segment>, g: Segment, n: nat)
    ensures Separate(segs + [g], n) <==> Separate(segs, n) && AllApart(segs, g) && g.base + g.count <= n
  {
    assert (segs + [g])[..|segs|] == segs;
  }

  /** What every round of rqsort keeps about the pending segments. */
  ghost predicate Progress<T(!new)>(cmp: (T, T) -> int, s: seq<T>, segs: seq<Segment>)
  {
    Settled(cmp, s, segs) && Separate(segs, |s|)
  }

  lemma ProgressSplit<T(!new)>(cmp: (T, T) -> int, s: seq<T>, t: seq<T>, segs: seq<Segment>, g: Segment, p: T, lt: nat, gt: nat,
                               x: Segment, y: Segment)
    requires TotalPreorder(cmp) && Progress(cmp, s, segs + [g]) && Rearranged(s, t, g.base, g.base + g.count)
    requires Partitioned(cmp, t, p, g.base, lt, gt, g.base + g.count)
    requires x.base == g.base && x.count == lt - g.base && y.base == gt && y.count == g.base + g.count - gt
    ensures Progress(cmp, t, segs + [x] + [y]) && Progress(cmp, t, segs + [y] + [x])
  {
    hide TotalPreorder, Partitioned, Rearranged, Rearrangements, Settled, Separate, AllApart;
    Bands(cmp, t, p, g.base, lt, gt, g.base + g.count);
    RearrangedLength(s, t, g.base, g.base + g.count);
    SeparatePush(segs, g, |s|);
    SettledSplit(cmp, s, t, segs, g, p, lt, gt, x, y);
    ApartSplit(segs, g, x, y);
    ApartSplit(segs, g, y, x);
    SeparatePush(segs, x, |s|);
    SeparatePush(segs + [x], y, |s|);
    SeparatePush(segs, y, |s|);
    SeparatePush(segs + [y], x, |s|);
  }

  lemma ProgressSorted<T(!new)>(cmp: (T, T) -> int, s: seq<T>, t: seq<T>, segs: seq<Segment>, g: Segment)
    requires Progress(cmp, s, segs + [g]) && Rearranged(s, t, g.base, g.base + g.count) && SortedIn(cmp, t, g.base, g.base + g.count)
    ensures Progress(cmp, t, segs) && Progress(cmp, t, segs + [Segment(g.base, 0, 0)])
  {
    hide Rearranged, Rearrangements, Separate, InOne, SortedIn;
    var h := Segment(g.base, 0, 0);
    RearrangedLength(s, t, g.base, g.base + g.count);
    SeparatePush(segs, g, |s|);
    SettledDone(cmp, s, t, segs, g);
    forall i, j | 0 <= i < j < |t| && !InOne(segs + [h], i, j) ensures cmp(t[i], t[j]) <= 0 {
      InOnePush(segs, h, i, j);
    }
    forall k | 0 <= k < |segs| ensures Apart(segs[k], h) {
      assert Apart(segs[k], g);
    }
    SeparatePush(segs, h, |s|);
  }

  /** The array is a sorted permutation of its former contents. */
  ghost predicate SortedPermutation<T(!new)>(cmp: (T, T) -> int, s: seq<T>, t: seq<T>)
  {
    multiset(s) == multiset(t) && SortedIn(cmp, t, 0, |t|)
  }

  lemma SortedAlready<T(!new)>(cmp: (T, T) -> int, s: seq<T>)
    requires |s| < 2
    ensures SortedPermutation(cmp, s, s)
  {
  }

  lemma ProgressStart<T(!new)>(cmp: (T, T) -> int, s: seq<T>)
    ensures Progress(cmp, s, [Segment(0, |s|, 0)])
  {
    hide Settled;
    SettledStart(cmp, s);
    SeparatePush([], Segment(0, |s|, 0), |s|);
    assert [] + [Segment(0, |s|, 0)] == [Segment(0, |s|, 0)];
  }

  lemma ProgressEnd<T(!new)>(cmp: (T, T) -> int, s: seq<T>, t: seq<T>)
    requires Progress(cmp, t, []) && Rearranged(s, t, 0, |s|)
    ensures SortedPermutation(cmp, s, t)
  {
    hide Rearranged, Rearrangements, Settled;
    RearrangedAll(s, t);
    SettledEnd(cmp, t);
  }

  /** The segment on top lies inside the array. */
  lemma ProgressTop<T(!new)>(cmp: (T, T) -> int, s: seq<T>, segs: seq<Segment>, g: Segment)
    requires Progress(cmp, s, segs + [g])
    ensures g.base + g.count <= |s|
  {
    hide Separate;
    SeparatePush(segs, g, |s|);
  }

  lemma Popped(segs: seq<Segment>)
    requires segs != []
    ensures segs == segs[..|segs| - 1] + [segs[|segs| - 1]]
    ensures Pending(segs) == Pending(segs[..|segs| - 1]) + segs[|segs| - 1].count + 1
  {
    hide Pending;
    PendingPush(segs[..|segs| - 1], segs[|segs| - 1]);
  }

  /** Ghost bookkeeping of one round: sorting inside the segment `g` is rearranging the whole array. */
  lemma RearrangedWhole<T(!new)>(was: seq<T>, s: seq<T>, t: seq<T>, g: Segment)
    requires Rearranged(was, s, 0, |was|) && Rearranged(s, t, g.base, g.base + g.count) && g.base + g.count <= |s|
    ensures Rearranged(was, t, 0, |was|)
  {
    hide Rearranged, Rearrangements;
    RearrangedLength(was, s, 0, |was|);
    RearrangedWider(s, t, g.base, g.base + g.count, 0, |was|);
    RearrangedTrans(was, s, t, 0, |was|);
  }

  /** The whole sort. The writes `stack[sp] := ...` are in bounds on every input. */
  method Rqsort<T(!new)>(a: array<T>, cmp: (T, T) -> int)
    requires TotalPreorder(cmp)
    modifies a
    ensures SortedPermutation(cmp, old(a[..]), a[..])
  {
    hide TotalPreorder, Progress, Rearranged, Rearrangements, Rising, Pending, SortedIn, SortedPermutation, Partitioned;
    ghost var was, n := a[..], a.Length;
    if a.Length < 2 {
      SortedAlready(cmp, was);
      return;
    }
    var stack := new Segment[STACK_SLOTS];
    stack[0] := Segment(0, a.Length, 0);
    var sp := 1;
    ghost var segs := [Segment(0, n, 0)];
    ProgressStart(cmp, was);
    RearrangedSame(was, 0, n);
    while sp > 0
      invariant 0 <= sp <= STACK_SLOTS && segs == stack[..sp]
      invariant Progress(cmp, a[..], segs) && Rearranged(was, a[..], 0, n)
      invariant Rising(segs, 50) || (sp == 1 && segs[0].depth == 0)
      decreases Pending(segs)
    {
      sp := sp - 1;
      ghost var g, before := segs[sp], Pending(segs);
      var ptr, nmemb, depth := stack[sp].base, stack[sp].count, stack[sp].depth;
      RisingPop(segs, 50);
      Popped(segs);
      segs := segs[..sp];
      RisingMore(segs, depth, 50);
      assert g == Segment(ptr, nmemb, depth);
      while nmemb > 6
        invariant 0 <= sp <= STACK_SLOTS && segs == stack[..sp] && g.base == ptr && g.count == nmemb
        invariant Progress(cmp, a[..], segs + [g]) && Rearranged(was, a[..], 0, n)
        invariant depth <= 50 && Rising(segs, depth) && Rising(segs, 50)
        invariant Pending(segs) + nmemb < before
        decreases nmemb
      {
        ghost var s := a[..];
        ProgressTop(cmp, s, segs, g);
        depth := depth + 1;
        if depth > 50 {
          HeapSort(a, cmp, ptr, nmemb);
          ProgressSorted(cmp, s, a[..], segs, g);
          RearrangedWhole(was, s, a[..], g);
          nmemb := 0;
          g := Segment(ptr, 0, 0);
          break;
        }
        ghost var p;
        var lt, gt;
        p, lt, gt := ThreeWay(a, cmp, ptr, nmemb);
        ghost var x, y := Segment(ptr, lt - ptr, depth), Segment(gt, ptr + nmemb - gt, depth);
        RearrangedWhole(was, s, a[..], g);
        ProgressSplit(cmp, s, a[..], segs, g, p, lt, gt, x, y);
        RisingPush(segs, depth - 1, if lt - ptr > ptr + nmemb - gt then x else y);
        RisingMore(segs + [if lt - ptr > ptr + nmemb - gt then x else y], depth, 50);
        PendingPush(segs, if lt - ptr > ptr + nmemb - gt then x else y);
        if lt - ptr > ptr + nmemb - gt {
          stack[sp] := Segment(ptr, lt - ptr, depth);
          sp := sp + 1;
          ptr, nmemb := gt, ptr + nmemb - gt;
          segs, g := segs + [x], y;
        } else {
          stack[sp] := Segment(gt, ptr + nmemb - gt, depth);
          sp := sp + 1;
          nmemb := lt - ptr;
          segs, g := segs + [y], x;
        }
        assert segs == stack[..sp];
      }
      ghost var s := a[..];
      ProgressTop(cmp, s, segs, g);
      InsertionSort(a, cmp, ptr, nmemb);
      ProgressSorted(cmp, s, a[..], segs, g);
      RearrangedWhole(was, s, a[..], g);
    }
    ProgressEnd(cmp, was, a[..]);
  }
}
