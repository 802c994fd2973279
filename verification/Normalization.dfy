// sort_cc: the canonical ordering of combining characters (section 3.11 of the Unicode Standard), in place.
module Normalization {
  /** Puts `c` behind the last element whose class is not above its own. */
  function Insert(cc: int -> nat, run: seq<int>, c: int): seq<int>
  {
    if run == [] || cc(run[|run| - 1]) <= cc(c) then run + [c]
    else Insert(cc, run[..|run| - 1], c) + [run[|run| - 1]]
  }

  /** A stable insertion sort by class. */
  function SortRun(cc: int -> nat, run: seq<int>): seq<int>
  {
    if run == [] then [] else Insert(cc, SortRun(cc, run[..|run| - 1]), run[|run| - 1])
  }

  /** The length of the run of non-starters that `s` begins with. */
  function RunLength(cc: int -> nat, s: seq<int>): (n: nat)
    ensures n <= |s| && (forall k :: 0 <= k < n ==> cc(s[k]) != 0) && (n < |s| ==> cc(s[n]) == 0)
  {
    if s == [] || cc(s[0]) == 0 then 0 else RunLength(cc, s[1..]) + 1
  }

  /** Starters stay; every maximal run of non-starters is sorted by class. */
  function Reorder(cc: int -> nat, s: seq<int>): seq<int>
    decreases |s|
  {
    if s == [] then []
    else if cc(s[0]) == 0 then [s[0]] + Reorder(cc, s[1..])
    else var n := RunLength(cc, s); SortRun(cc, s[..n]) + Reorder(cc, s[n..])
  }

  // ---------- what the reordering does ----------

  predicate Ascending(cc: int -> nat, s: seq<int>)
  {
    forall i, j :: 0 <= i < j < |s| ==> cc(s[i]) <= cc(s[j])
  }

  lemma InsertEnds(cc: int -> nat, run: seq<int>, c: int)
    requires run == [] || cc(run[|run| - 1]) <= cc(c)
    ensures Insert(cc, run, c) == run + [c]
  {
  }

  lemma InsertPasses(cc: int -> nat, run: seq<int>, c: int)
    requires run != [] && cc(run[|run| - 1]) > cc(c)
    ensures Insert(cc, run, c) == Insert(cc, run[..|run| - 1], c) + [run[|run| - 1]]
  {
  }

  lemma AscendingPush(cc: int -> nat, s: seq<int>, c: int)
    requires Ascending(cc, s) && (s == [] || cc(s[|s| - 1]) <= cc(c))
    ensures Ascending(cc, s + [c])
  {
  }

  lemma AscendingFront(cc: int -> nat, s: seq<int>)
    requires Ascending(cc, s) && s != []
    ensures Ascending(cc, s[..|s| - 1]) && (|s| > 1 ==> cc(s[|s| - 2]) <= cc(s[|s| - 1]))
  {
  }

  lemma {:induction false} InsertFacts(cc: int -> nat, run: seq<int>, c: int)
    requires Ascending(cc, run)
    ensures var r := Insert(cc, run, c);
            Ascending(cc, r) && multiset(r) == multiset(run) + multiset{c} && |r| == |run| + 1 &&
            (r[|run|] == c || (run != [] && r[|run|] == run[|run| - 1]))
  {
    hide Insert, Ascending;
    if run != [] && cc(run[|run| - 1]) > cc(c) {
      var front, last := run[..|run| - 1], run[|run| - 1];
      assert run == front + [last];
      AscendingFront(cc, run);
      InsertFacts(cc, front, c);
      InsertPasses(cc, run, c);
      AscendingPush(cc, Insert(cc, front, c), last);
    } else {
      InsertEnds(cc, run, c);
      AscendingPush(cc, run, c);
    }
  }

  lemma SortRunNext(cc: int -> nat, run: seq<int>, c: int)
    ensures SortRun(cc, run + [c]) == Insert(cc, SortRun(cc, run), c) && SortRun(cc, []) == []
  {
    assert (run + [c])[..|run|] == run;
  }

  lemma {:induction false} SortRunFacts(cc: int -> nat, run: seq<int>)
    ensures Ascending(cc, SortRun(cc, run)) && multiset(SortRun(cc, run)) == multiset(run) && |SortRun(cc, run)| == |run|
  {
    hide Insert, SortRun;
    SortRunNext(cc, [], 0);
    if run != [] {
      var front, c := run[..|run| - 1], run[|run| - 1];
      assert run == front + [c];
      SortRunFacts(cc, front);
      SortRunNext(cc, front, c);
      InsertFacts(cc, SortRun(cc, front), c);
    }
  }

  /** The elements of one class, in order. */
  function OfClass(cc: int -> nat, s: seq<int>, v: nat): seq<int>
  {
    if s == [] then [] else OfClass(cc, s[..|s| - 1], v) + if cc(s[|s| - 1]) == v then [s[|s| - 1]] else []
  }

  lemma OfClassPush(cc: int -> nat, s: seq<int>, c: int, v: nat)
    ensures OfClass(cc, s + [c], v) == OfClass(cc, s, v) + if cc(c) == v then [c] else []
  {
    assert (s + [c])[..|s|] == s;
  }

  lemma {:induction false} OfClassAppend(cc: int -> nat, s: seq<int>, t: seq<int>, v: nat)
    ensures OfClass(cc, s + t, v) == OfClass(cc, s, v) + OfClass(cc, t, v)
  {
    if t == [] {
      assert s + t == s;
    } else {
      var n := |t| - 1;
      assert s + t == (s + t[..n]) + [t[n]];
      OfClassAppend(cc, s, t[..n], v);
      OfClassPush(cc, s + t[..n], t[n], v);
    }
  }

  /** Insertion does not overtake an element of the same class. */
  lemma {:induction false} InsertStable(cc: int -> nat, run: seq<int>, c: int, v: nat)
    ensures OfClass(cc, Insert(cc, run, c), v) == OfClass(cc, run + [c], v)
  {
    hide Insert, OfClass;
    if run != [] && cc(run[|run| - 1]) > cc(c) {
      var front, last := run[..|run| - 1], run[|run| - 1];
      assert run == front + [last];
      InsertStable(cc, front, c, v);
      InsertPasses(cc, run, c);
      OfClassPush(cc, Insert(cc, front, c), last, v);
      OfClassPush(cc, front, c, v);
      OfClassPush(cc, front, last, v);
      OfClassPush(cc, run, c, v);
    } else {
      InsertEnds(cc, run, c);
    }
  }

  lemma {:induction false} SortRunStable(cc: int -> nat, run: seq<int>, v: nat)
    ensures OfClass(cc, SortRun(cc, run), v) == OfClass(cc, run, v)
  {
    hide Insert, OfClass, SortRun;
    SortRunNext(cc, [], 0);
    if run != [] {
      var front, c := run[..|run| - 1], run[|run| - 1];
      assert run == front + [c];
      SortRunStable(cc, front, v);
      SortRunNext(cc, front, c);
      InsertStable(cc, SortRun(cc, front), c, v);
      OfClassPush(cc, SortRun(cc, front), c, v);
      OfClassPush(cc, front, c, v);
    }
  }

  /** An ascending run is left alone. */
  lemma {:induction false} SortRunSorted(cc: int -> nat, run: seq<int>)
    requires Ascending(cc, run)
    ensures SortRun(cc, run) == run
  {
    hide Insert, SortRun, Ascending;
    SortRunNext(cc, [], 0);
    if run != [] {
      var front, c := run[..|run| - 1], run[|run| - 1];
      assert run == front + [c];
      AscendingFront(cc, run);
      SortRunSorted(cc, front);
      SortRunNext(cc, front, c);
      InsertEnds(cc, front, c);
    }
  }

  lemma ReorderAtStarter(cc: int -> nat, c: int, s: seq<int>)
    requires cc(c) == 0
    ensures Reorder(cc, [c] + s) == [c] + Reorder(cc, s)
  {
    assert ([c] + s)[1..] == s;
  }

  lemma ReorderAtRun(cc: int -> nat, run: seq<int>, s: seq<int>)
    requires run != [] && (forall k :: 0 <= k < |run| ==> cc(run[k]) != 0) && (s != [] ==> cc(s[0]) == 0)
    ensures Reorder(cc, run + s) == SortRun(cc, run) + Reorder(cc, s)
  {
    hide SortRun;
    var all := run + s;
    RunLengthIs(cc, run, s);
    assert all[0] == run[0] && all[..|run|] == run && all[|run|..] == s;
  }

  lemma {:induction false} RunLengthIs(cc: int -> nat, run: seq<int>, s: seq<int>)
    requires (forall k :: 0 <= k < |run| ==> cc(run[k]) != 0) && (s != [] ==> cc(s[0]) == 0)
    ensures RunLength(cc, run + s) == |run|
  {
    if run == [] {
      assert run + s == s;
    } else {
      RunLengthIs(cc, run[1..], s);
      assert (run + s)[1..] == run[1..] + s;
    }
  }

  lemma ReorderNothing(cc: int -> nat)
    ensures Reorder(cc, []) == []
  {
  }

  /** A non-empty sequence begins with a starter, or with a maximal run of non-starters. */
  lemma Parts(cc: int -> nat, s: seq<int>) returns (run: seq<int>, rest: seq<int>)
    requires s != [] && cc(s[0]) != 0
    ensures s == run + rest && run != [] && (forall k :: 0 <= k < |run| ==> cc(run[k]) != 0) && (rest != [] ==> cc(rest[0]) == 0)
  {
    var n := RunLength(cc, s);
    run, rest := s[..n], s[n..];
  }

  /** Canonical order: no element of a lower, non-zero class directly follows one of a higher class. */
  predicate InOrder(cc: int -> nat, s: seq<int>)
  {
    forall k :: 0 < k < |s| && cc(s[k]) != 0 ==> cc(s[k - 1]) <= cc(s[k])
  }

  /** The same starters in the same places. */
  predicate SameStarters(cc: int -> nat, s: seq<int>, t: seq<int>)
  {
    |s| == |t| && forall k :: 0 <= k < |s| ==> (cc(s[k]) == 0 <==> cc(t[k]) == 0) && (cc(s[k]) == 0 ==> t[k] == s[k])
  }

  lemma SortedRunPart(cc: int -> nat, run: seq<int>)
    requires forall k :: 0 <= k < |run| ==> cc(run[k]) != 0
    ensures |SortRun(cc, run)| == |run| && forall k :: 0 <= k < |run| ==> cc(SortRun(cc, run)[k]) != 0
  {
    hide SortRun;
    SortRunFacts(cc, run);
    var t := SortRun(cc, run);
    forall k | 0 <= k < |run| ensures cc(t[k]) != 0 {
      assert t[k] in multiset(t);
      assert t[k] in run;
    }
  }

  /** The result is in canonical order, a permutation, with every starter in place. */
  lemma {:induction false} ReorderOrders(cc: int -> nat, s: seq<int>)
    ensures InOrder(cc, Reorder(cc, s)) && multiset(Reorder(cc, s)) == multiset(s) && SameStarters(cc, s, Reorder(cc, s))
    decreases |s|
  {
    hide Reorder, SortRun, InOrder, SameStarters, Ascending;
    if s == [] {
      ReorderNothing(cc);
      OrderedNothing(cc);
    } else if cc(s[0]) == 0 {
      ReorderOrders(cc, s[1..]);
      assert s == [s[0]] + s[1..];
      ReorderAtStarter(cc, s[0], s[1..]);
      PrependStarter(cc, s[0], s[1..], Reorder(cc, s[1..]));
    } else {
      var run, rest := Parts(cc, s);
      ReorderOrders(cc, rest);
      SortRunFacts(cc, run);
      SortedRunPart(cc, run);
      ReorderAtRun(cc, run, rest);
      PrependRun(cc, run, SortRun(cc, run), rest, Reorder(cc, rest));
    }
  }

  lemma OrderedNothing(cc: int -> nat)
    ensures InOrder(cc, []) && SameStarters(cc, [], [])
  {
  }

  lemma PrependStarter(cc: int -> nat, c: int, s: seq<int>, t: seq<int>)
    requires cc(c) == 0 && InOrder(cc, t) && SameStarters(cc, s, t)
    ensures InOrder(cc, [c] + t) && SameStarters(cc, [c] + s, [c] + t)
  {
  }

  lemma PrependRun(cc: int -> nat, run: seq<int>, run': seq<int>, s: seq<int>, t: seq<int>)
    requires |run| == |run'| && Ascending(cc, run') && InOrder(cc, t) && SameStarters(cc, s, t) && (s != [] ==> cc(s[0]) == 0)
    requires forall k :: 0 <= k < |run| ==> cc(run[k]) != 0 && cc(run'[k]) != 0
    ensures InOrder(cc, run' + t) && SameStarters(cc, run + s, run' + t)
  {
    var x, y := run + s, run' + t;
    forall k | 0 < k < |y| && cc(y[k]) != 0 ensures cc(y[k - 1]) <= cc(y[k]) {
      if k > |run| {
        assert y[k] == t[k - |run|] && y[k - 1] == t[k - |run| - 1];
      }
    }
    forall k | 0 <= k < |x| ensures (cc(x[k]) == 0 <==> cc(y[k]) == 0) && (cc(x[k]) == 0 ==> y[k] == x[k]) {
      if k >= |run| {
        assert x[k] == s[k - |run|] && y[k] == t[k - |run|];
      }
    }
  }

  /** Reordering goes piece by piece: up to a starter, and from it on. */
  lemma {:induction false} ReorderSplit(cc: int -> nat, s: seq<int>, t: seq<int>)
    requires s == [] || t == [] || cc(t[0]) == 0 || cc(s[|s| - 1]) == 0
    ensures Reorder(cc, s + t) == Reorder(cc, s) + Reorder(cc, t)
    decreases |s|
  {
    hide Reorder, SortRun;
    ReorderNothing(cc);
    if s == [] {
      assert s + t == t;
    } else if t == [] {
      assert s + t == s;
    } else if cc(s[0]) == 0 {
      var s' := s[1..];
      assert s == [s[0]] + s' && s + t == [s[0]] + (s' + t);
      ReorderSplit(cc, s', t);
      ReorderAtStarter(cc, s[0], s');
      ReorderAtStarter(cc, s[0], s' + t);
    } else {
      var run, rest := Parts(cc, s);
      assert s + t == run + (rest + t);
      if rest == [] {
        assert run == s;
      }
      ReorderSplit(cc, rest, t);
      ReorderAtRun(cc, run, rest);
      ReorderAtRun(cc, run, rest + t);
    }
  }

  /** Up to any starter, and in the whole, the characters of each class keep their order. */
  lemma ReorderStable(cc: int -> nat, s: seq<int>, t: seq<int>, v: nat)
    requires t != [] ==> cc(t[0]) == 0
    ensures |Reorder(cc, s)| == |s| && Reorder(cc, s + t) == Reorder(cc, s) + Reorder(cc, t)
    ensures OfClass(cc, Reorder(cc, s), v) == OfClass(cc, s, v)
  {
    hide Reorder, OfClass;
    ReorderSplit(cc, s, t);
    ReorderClasses(cc, s, v);
    ReorderOrders(cc, s);
  }

  lemma {:induction false} ReorderClasses(cc: int -> nat, s: seq<int>, v: nat)
    ensures OfClass(cc, Reorder(cc, s), v) == OfClass(cc, s, v)
    decreases |s|
  {
    hide Reorder, SortRun, OfClass;
    if s == [] {
      ReorderNothing(cc);
    } else if cc(s[0]) == 0 {
      var s' := s[1..];
      assert s == [s[0]] + s';
      ReorderClasses(cc, s', v);
      ReorderAtStarter(cc, s[0], s');
      OfClassAppend(cc, [s[0]], s', v);
      OfClassAppend(cc, [s[0]], Reorder(cc, s'), v);
    } else {
      var run, rest := Parts(cc, s);
      SortRunStable(cc, run, v);
      ReorderClasses(cc, rest, v);
      ReorderAtRun(cc, run, rest);
      OfClassAppend(cc, run, rest, v);
      OfClassAppend(cc, SortRun(cc, run), Reorder(cc, rest), v);
    }
  }

  /** Reordering leaves a sequence in canonical order alone. */
  lemma {:induction false} ReorderInOrder(cc: int -> nat, s: seq<int>)
    requires InOrder(cc, s)
    ensures Reorder(cc, s) == s
    decreases |s|
  {
    hide Reorder, SortRun, InOrder;
    if s == [] {
      ReorderNothing(cc);
    } else if cc(s[0]) == 0 {
      var s' := s[1..];
      assert s == [s[0]] + s';
      InOrderParts(cc, [s[0]], s');
      ReorderInOrder(cc, s');
      ReorderAtStarter(cc, s[0], s');
    } else {
      var run, rest := Parts(cc, s);
      InOrderParts(cc, run, rest);
      ReorderInOrder(cc, rest);
      RunAscends(cc, run);
      SortRunSorted(cc, run);
      ReorderAtRun(cc, run, rest);
    }
  }

  lemma InOrderParts(cc: int -> nat, s: seq<int>, t: seq<int>)
    requires InOrder(cc, s + t)
    ensures InOrder(cc, s) && InOrder(cc, t)
  {
    var x := s + t;
    forall k | 0 < k < |s| && cc(s[k]) != 0 ensures cc(s[k - 1]) <= cc(s[k]) {
      assert x[k] == s[k] && x[k - 1] == s[k - 1];
    }
    forall k | 0 < k < |t| && cc(t[k]) != 0 ensures cc(t[k - 1]) <= cc(t[k]) {
      assert x[k + |s|] == t[k] && x[k + |s| - 1] == t[k - 1];
    }
  }

  lemma {:induction false} RunAscends(cc: int -> nat, run: seq<int>)
    requires InOrder(cc, run) && forall i :: 0 <= i < |run| ==> cc(run[i]) != 0
    ensures Ascending(cc, run)
  {
    hide Ascending;
    if run == [] {
      AscendingNothing(cc);
    } else {
      var n := |run| - 1;
      var front := run[..n];
      assert run == front + [run[n]];
      InOrderParts(cc, front, [run[n]]);
      RunAscends(cc, front);
      AscendingPush(cc, front, run[n]);
    }
  }

  lemma AscendingNothing(cc: int -> nat)
    ensures Ascending(cc, [])
  {
  }

  /** Canonical ordering is idempotent. */
  lemma ReorderTwice(cc: int -> nat, s: seq<int>)
    ensures Reorder(cc, Reorder(cc, s)) == Reorder(cc, s)
  {
    ReorderOrders(cc, s);
    ReorderInOrder(cc, Reorder(cc, s));
  }

  // ---------- the loops ----------

  /** How far down the inner loop takes `c`: past every element of a higher class. */
  lemma {:induction false} InsertHole(cc: int -> nat, low: seq<int>, high: seq<int>, c: int)
    requires low == [] || cc(low[|low| - 1]) <= cc(c)
    requires forall i :: 0 <= i < |high| ==> cc(high[i]) > cc(c)
    ensures Insert(cc, low + high, c) == low + [c] + high
    decreases |high|
  {
    hide Insert;
    if high == [] {
      assert low + high == low;
      InsertEnds(cc, low, c);
    } else {
      var n := |high| - 1;
      InsertHole(cc, low, high[..n], c);
      InsertPasses(cc, low + high, c);
      assert (low + high)[..|low + high| - 1] == low + high[..n];
      assert high == high[..n] + [high[n]];
    }
  }

  /** The buffer with the elements from `k + 1` to `j` moved up by one, over `buf[j]`. */
  function Opened(s: seq<int>, k: int, j: int): seq<int>
    requires -1 <= k < j < |s|
  {
    s[..k + 1] + [s[if k + 1 < j then k + 1 else j]] + s[k + 1..j] + s[j + 1..]
  }

  lemma OpenedStart(s: seq<int>, j: nat)
    requires j < |s|
    ensures Opened(s, j - 1, j) == s
  {
  }

  lemma OpenedNext(s: seq<int>, k: nat, j: nat)
    requires k < j < |s|
    ensures Opened(s, k, j)[k] == s[k] && Opened(s, k, j)[k + 1 := s[k]] == Opened(s, k - 1, j)
  {
    assert s[..k + 1] == s[..k] + [s[k]];
    assert s[k..j] == [s[k]] + s[k + 1..j];
  }

  lemma OpenedFilled(s: seq<int>, k: int, start: nat, j: nat, c: int)
    requires start - 1 <= k < j < |s|
    ensures Opened(s, k, j)[k + 1 := c] == s[..start] + (s[start..k + 1] + [c] + s[k + 1..j]) + s[j + 1..]
    ensures s[start..k + 1] + s[k + 1..j] == s[start..j]
  {
    assert s[..k + 1] == s[..start] + s[start..k + 1];
  }

  /** Moves the elements of higher class up and puts `buf[j]` in its place. */
  method InsertOne(buf: array<int>, cc: int -> nat, start: nat, j: nat)
    requires start <= j < buf.Length
    modifies buf
    ensures buf[..] == old(buf[..start]) + Insert(cc, old(buf[start..j]), old(buf[j])) + old(buf[j + 1..])
  {
    hide Insert, Opened;
    ghost var was := buf[..];
    var ch1 := buf[j];
    var cc1 := cc(ch1);
    var k := j - 1;
    OpenedStart(was, j);
    while k >= start && cc(buf[k]) > cc1
      invariant start - 1 <= k < j && buf[..] == Opened(was, k, j)
      invariant forall i :: k < i < j ==> cc(was[i]) > cc1
    {
      OpenedNext(was, k, j);
      assert buf[..][k] == was[k];
      buf[k + 1] := buf[k];
      k := k - 1;
    }
    if k >= start {
      OpenedNext(was, k, j);
      assert buf[..][k] == was[k];
    }
    InsertDone(cc, was, k, start, j);
    buf[k + 1] := ch1;
  }

  lemma InsertDone(cc: int -> nat, s: seq<int>, k: int, start: nat, j: nat)
    requires start - 1 <= k < j < |s| && (k >= start ==> cc(s[k]) <= cc(s[j])) && forall i :: k < i < j ==> cc(s[i]) > cc(s[j])
    ensures Opened(s, k, j)[k + 1 := s[j]] == s[..start] + Insert(cc, s[start..j], s[j]) + s[j + 1..]
  {
    hide Opened, Insert;
    OpenedFilled(s, k, start, j, s[j]);
    InsertHole(cc, s[start..k + 1], s[k + 1..j], s[j]);
  }

  /** What the loop over a run has done when it reaches `j`. */
  predicate RunSorted(cc: int -> nat, s: seq<int>, start: nat, j: nat, t: seq<int>)
  {
    start < j <= |s| && |SortRun(cc, s[start..j])| == j - start && t == s[..start] + SortRun(cc, s[start..j]) + s[j..] &&
    forall k :: start <= k < j ==> cc(s[k]) != 0
  }

  lemma RunSortedStart(cc: int -> nat, s: seq<int>, start: nat)
    requires start < |s| && cc(s[start]) != 0
    ensures RunSorted(cc, s, start, start + 1, s)
  {
    hide SortRun;
    assert s[start..start + 1] == [] + [s[start]];
    SortRunNext(cc, [], s[start]);
    InsertEnds(cc, [], s[start]);
  }

  lemma RunSortedNext(cc: int -> nat, s: seq<int>, start: nat, j: nat, t: seq<int>, t': seq<int>)
    requires RunSorted(cc, s, start, j, t) && j < |s| && cc(s[j]) != 0
    ensures |t| == |s| && t[j] == s[j]
    ensures t' == t[..start] + Insert(cc, t[start..j], t[j]) + t[j + 1..] ==> RunSorted(cc, s, start, j + 1, t')
  {
    hide SortRun, Insert;
    var sorted := SortRun(cc, s[start..j]);
    assert t[..start] == s[..start] && t[start..j] == sorted && t[j + 1..] == s[j + 1..];
    assert s[start..j + 1] == s[start..j] + [s[j]];
    SortRunNext(cc, s[start..j], s[j]);
    SortRunFacts(cc, s[start..j + 1]);
  }

  lemma RunSortedHere(cc: int -> nat, s: seq<int>, start: nat, j: nat, t: seq<int>)
    requires RunSorted(cc, s, start, j, t)
    ensures start < j <= |s| == |t| && (j < |s| ==> t[j] == s[j])
  {
  }

  /** Sorts the run of non-starters that begins at `start`; returns where it ends. */
  method SortRunAt(buf: array<int>, cc: int -> nat, start: nat) returns (j: nat)
    requires start < buf.Length && cc(buf[start]) != 0
    modifies buf
    ensures RunSorted(cc, old(buf[..]), start, j, buf[..])
    ensures j < buf.Length ==> cc(old(buf[j])) == 0
  {
    hide RunSorted, Insert;
    ghost var s := buf[..];
    j := start + 1;
    RunSortedStart(cc, s, start);
    while j < buf.Length
      invariant start < j <= buf.Length && RunSorted(cc, s, start, j, buf[..])
    {
      RunSortedHere(cc, s, start, j, buf[..]);
      assert buf[..][j] == s[j];
      if cc(buf[j]) == 0 {
        break;
      }
      ghost var t := buf[..];
      InsertOne(buf, cc, start, j);
      RunSortedNext(cc, s, start, j, t, buf[..]);
      j := j + 1;
    }
  }

  function Least(x: nat, y: nat): nat { if x < y then x else y }

  /** The first `d` characters are settled, the others untouched. */
  predicate Settled(cc: int -> nat, s: seq<int>, d: nat, t: seq<int>)
  {
    d <= |s| == |t| && t[..d] == Reorder(cc, s[..d]) && t[d..] == s[d..] && (0 < d < |s| ==> cc(s[d - 1]) == 0)
  }

  lemma SettledStarter(cc: int -> nat, s: seq<int>, i: nat, t: seq<int>)
    requires Settled(cc, s, i, t) && i < |s| && cc(s[i]) == 0
    ensures Settled(cc, s, i + 1, t)
  {
    hide Reorder;
    OneMoreStarter(cc, s, i, t);
  }

  lemma ReorderedRun(cc: int -> nat, s: seq<int>, i: nat, j: nat)
    requires i < j <= |s| && (forall k :: i <= k < j ==> cc(s[k]) != 0) && (i > 0 ==> cc(s[i - 1]) == 0)
    ensures Reorder(cc, s[..j]) == Reorder(cc, s[..i]) + SortRun(cc, s[i..j])
  {
    hide Reorder, SortRun;
    var run := s[i..j];
    ReorderNothing(cc);
    ReorderAtRun(cc, run, []);
    assert run + [] == run && SortRun(cc, run) + [] == SortRun(cc, run);
    ReorderSplit(cc, s[..i], run);
    assert s[..j] == s[..i] + run;
  }

  /** The rest of one buffer is that of another, further on too. */
  lemma SameRest(s: seq<int>, t: seq<int>, i: nat, j: nat)
    requires i <= j <= |s| == |t| && s[i..] == t[i..]
    ensures s[i..j] == t[i..j] && s[j..] == t[j..] && forall k :: i <= k < |s| ==> s[k] == t[k]
  {
    assert forall k :: i <= k < |s| ==> s[k] == s[i..][k - i] && t[k] == t[i..][k - i];
  }

  lemma SettledRun(cc: int -> nat, s: seq<int>, i: nat, j: nat, t: seq<int>, u: seq<int>)
    requires Settled(cc, s, i, t) && RunSorted(cc, t, i, j, u) && (j < |t| ==> cc(t[j]) == 0)
    ensures Settled(cc, s, Least(j + 1, |s|), u)
  {
    hide Reorder, SortRun;
    SameRest(s, t, i, j);
    ReorderedRun(cc, s, i, j);
    assert u[..j] == Reorder(cc, s[..j]) && u[j..] == s[j..];
    if j < |s| {
      OneMoreStarter(cc, s, j, u);
    }
  }

  lemma OneMoreStarter(cc: int -> nat, s: seq<int>, i: nat, t: seq<int>)
    requires i < |s| == |t| && cc(s[i]) == 0 && t[..i] == Reorder(cc, s[..i]) && t[i..] == s[i..]
    ensures Settled(cc, s, i + 1, t)
  {
    hide Reorder;
    assert s[..i + 1] == s[..i] + [s[i]] && t[..i + 1] == t[..i] + [t[i]];
    SameRest(s, t, i, i + 1);
    ReorderSplit(cc, s[..i], [s[i]]);
    ReorderNothing(cc);
    ReorderAtStarter(cc, s[i], []);
    assert [s[i]] + [] == [s[i]];
  }

  lemma SettledAt(cc: int -> nat, s: seq<int>, i: nat, t: seq<int>)
    requires Settled(cc, s, i, t) && i < |s|
    ensures |t| == |s| && t[i] == s[i]
  {
    assert t[i] == t[i..][0] && s[i] == s[i..][0];
  }

  /** sort_cc */
  method SortCc(buf: array<int>, cc: int -> nat)
    modifies buf
    ensures buf[..] == Reorder(cc, old(buf[..]))
  {
    hide Settled, RunSorted;
    ghost var s := buf[..];
    var len, i := buf.Length, 0;
    SettledNone(cc, s);
    while i < len
      invariant 0 <= i && Settled(cc, s, Least(i, len), buf[..])
      decreases len - i
    {
      SettledAt(cc, s, i, buf[..]);
      assert buf[..][i] == s[i];
      if cc(buf[i]) != 0 {
        ghost var t := buf[..];
        var j := SortRunAt(buf, cc, i);
        RunSortedHere(cc, t, i, j, buf[..]);
        SettledRun(cc, s, i, j, t, buf[..]);
        i := j;
      } else {
        SettledStarter(cc, s, i, buf[..]);
      }
      i := i + 1;
    }
    SettledAll(cc, s, buf[..]);
  }

  lemma SettledNone(cc: int -> nat, s: seq<int>)
    ensures Settled(cc, s, 0, s)
  {
    ReorderNothing(cc);
  }

  lemma SettledAll(cc: int -> nat, s: seq<int>, t: seq<int>)
    requires Settled(cc, s, |s|, t)
    ensures t == Reorder(cc, s)
  {
    assert s[..|s|] == s && t[..|s|] == t;
  }
}
