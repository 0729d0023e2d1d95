/** What the sweep guarantees: segments sharing a column never overlap, whatever
    the order of the points, and with the points in sweep order some proxy
    reaches the number of columns the sweep opened. */
module SweepProofs {
  import opened Sorting
  import opened WeekSweep
  lemma PlaceKeepsColumnsDisjoint(segs: seq<DaySegment>, st: Sweep, p: Point)
    requires p.seg < |segs| && Wf(segs, st) && ColumnsDisjoint(segs, st)
    requires segs[p.seg].start <= segs[p.seg].end
    ensures ColumnsDisjoint(segs, Place(segs, st, p))
  {
    if !p.isEnd {
      var s := segs[p.seg];
      var c := FirstFreeColumn(st.colEnds, s.start, 0);
      AssignKeepsDisjoint(segs, st, p.seg, c, Place(segs, st, p));
    }
  }

  /** Putting segment `k0` into a column whose last segment ended by its start, and
      moving that column's end to its end, keeps the columns disjoint. */
  lemma AssignKeepsDisjoint(segs: seq<DaySegment>, st: Sweep, k0: nat, c: nat, r: Sweep)
    requires k0 < |segs| && segs[k0].start <= segs[k0].end
    requires Wf(segs, st) && ColumnsDisjoint(segs, st) && Wf(segs, r)
    requires c <= |st.colEnds| && (c < |st.colEnds| ==> st.colEnds[c] <= segs[k0].start)
    requires r.column == st.column[k0 := c]
    requires r.colEnds == if c == |st.colEnds| then st.colEnds + [segs[k0].end] else st.colEnds[c := segs[k0].end]
    ensures ColumnsDisjoint(segs, r)
  {
    forall k | k in r.column
      ensures segs[k].end <= r.colEnds[r.column[k]]
    {
      if k != k0 {
        assert st.column[k] < |st.colEnds|;
      }
    }
    forall k1, k2 | k1 in r.column && k2 in r.column && k1 != k2 && r.column[k1] == r.column[k2]
      ensures segs[k1].end <= segs[k2].start || segs[k2].end <= segs[k1].start
    {
      if k1 != k0 && k2 != k0 {
      } else if k1 == k0 {
        assert st.column[k2] == c;
      } else {
        assert st.column[k1] == c;
      }
    }
  }

  lemma StepKeepsColumnsDisjoint(segs: seq<DaySegment>, st: Sweep, p: Point)
    requires p.seg < |segs| && Wf(segs, st) && ColumnsDisjoint(segs, st)
    requires segs[p.seg].start <= segs[p.seg].end
    ensures ColumnsDisjoint(segs, Step(segs, st, p))
  {
    PlaceKeepsColumnsDisjoint(segs, st, p);
  }

  /** Whatever order the points come in, no two segments in one column overlap. */
  lemma RunKeepsColumnsDisjoint(segs: seq<DaySegment>, pts: seq<Point>, n: nat)
    requires n <= |pts| && Bounded(segs, pts)
    requires forall k | 0 <= k < |segs| :: segs[k].start <= segs[k].end
    ensures ColumnsDisjoint(segs, Run(segs, pts, n))
    decreases n
  {
    if n > 0 {
      RunKeepsColumnsDisjoint(segs, pts, n - 1);
      StepKeepsColumnsDisjoint(segs, Run(segs, pts, n - 1), pts[n - 1]);
    }
  }

  lemma StepEffect(segs: seq<DaySegment>, st: Sweep, p: Point)
    requires p.seg < |segs| && Wf(segs, st)
    ensures p.isEnd ==> EndEffect(segs, st, p, Step(segs, st, p))
    ensures !p.isEnd ==> StartEffect(segs, st, p, FirstFreeColumn(st.colEnds, segs[p.seg].start, 0), Step(segs, st, p))
  {
    var mid := Place(segs, st, p);
    if !p.isEnd {
      assert mid.active == st.active + [p.seg];
      assert p.seg in mid.active;
    }
  }

  lemma {:induction false} CoverCount(w: set<nat>, f: map<nat, nat>, n: nat)
    requires forall c | 0 <= c < n :: Hits(w, f, c)
    ensures n <= |w|
  {
    if n > 0 {
      assert Hits(w, f, n - 1);
      var k0 :| k0 in w && k0 in f && f[k0] == n - 1;
      var w' := set k | k in w && k in f && f[k] != n - 1;
      forall c | 0 <= c < n - 1 ensures Hits(w', f, c) {
        assert Hits(w, f, c);
        var k :| k in w && k in f && f[k] == c;
        assert k in w';
      }
      CoverCount(w', f, n - 1);
      assert w' <= w - {k0};
      SubsetCard(w', w - {k0});
    }
  }

  lemma {:induction false} SubsetCard<T>(a: set<T>, b: set<T>)
    requires a <= b
    ensures |a| <= |b|
    decreases |b|
  {
    if b != {} {
      var x :| x in b;
      SubsetCard(a - {x}, b - {x});
    }
  }

  /** Counting with repetition finds at least the distinct overlapping segments. */
  lemma {:induction false} CountAtLeast(segs: seq<DaySegment>, a: DaySegment, active: seq<nat>, d: set<nat>)
    requires forall k | k in active :: k < |segs|
    requires forall k | k in d :: k in active && SegmentsOverlap(a, segs[k])
    ensures |d| <= OverlapCount(segs, a, active)
    decreases |active|
  {
    if active == [] {
      assert d == {};
    } else {
      assert active == [active[0]] + active[1..];
      var d' := d - {active[0]};
      assert forall k | k in active[1..] :: k in active;
      CountAtLeast(segs, a, active[1..], d');
    }
  }

  lemma InvStepEnd(segs: seq<DaySegment>, pts: seq<Point>, n: nat, st: Sweep, r: Sweep)
    requires Distinct(pts) && Consistent(segs, pts) && n < |pts| && pts[n].isEnd
    requires Wf(segs, st) && Wf(segs, r) && SweepInv(segs, pts, n, st)
    requires EndEffect(segs, st, pts[n], r)
    ensures SweepInv(segs, pts, n + 1, r)
  {
    var p := pts[n];
    forall k, i | k in r.column && n + 1 <= i < |pts| && pts[i] == Point(segs[k].end, true, k)
      ensures k in r.active
    {
      assert pts[i] != pts[n];
      assert pts[n] == Point(segs[p.seg].end, true, p.seg);
      assert k != p.seg;
      assert k in st.active;
      assert k in multiset(st.active);
      assert multiset(r.active)[k] == multiset(st.active)[k];
    }
    if |r.colEnds| > 0 {
      var k :| k in st.proxy && st.proxy[k] >= |st.colEnds|;
      assert r.proxy[k] >= |r.colEnds|;
    }
    forall c | 0 <= c < |r.colEnds| ensures EndsAt(segs, r, c) {
      assert EndsAt(segs, st, c);
    }
  }

  lemma InvStepStart(segs: seq<DaySegment>, pts: seq<Point>, n: nat, st: Sweep, c: nat, r: Sweep)
    requires SortedBy(pts, PointOrder) && Distinct(pts) && Consistent(segs, pts) && n < |pts| && !pts[n].isEnd
    requires Wf(segs, st) && Wf(segs, r) && SweepInv(segs, pts, n, st)
    requires c <= |st.colEnds| && StartEffect(segs, st, pts[n], c, r)
    requires c == |st.colEnds| ==> r.proxy[pts[n].seg] >= |st.colEnds| + 1
    ensures SweepInv(segs, pts, n + 1, r)
  {
    var p := pts[n];
    var s := p.seg;
    assert p == Point(segs[s].start, false, s);
    assert s !in st.column;
    forall k, i | k in r.column && n + 1 <= i < |pts| ensures segs[k].start <= pts[i].time {
      if k == s {
        assert PointOrder(pts[n], pts[i]);
      }
    }
    forall k, i | k in r.column && n + 1 <= i < |pts| ensures pts[i] != Point(segs[k].start, false, k) {
      if k == s {
        assert pts[i] != pts[n];
      }
    }
    forall cc | 0 <= cc < |r.colEnds| ensures EndsAt(segs, r, cc) {
      if cc == c {
        assert r.column[s] == cc;
      } else {
        assert EndsAt(segs, st, cc);
        var k :| k in st.column && st.column[k] == cc && segs[k].end == st.colEnds[cc];
        assert r.column[k] == cc;
      }
    }
    if c < |st.colEnds| {
      var k :| k in st.proxy && st.proxy[k] >= |st.colEnds|;
      assert r.proxy[k] >= |r.colEnds|;
    }
  }

  /** When every column is still busy at a start, the starting segment overlaps
      the segment that ends each column, and itself, so its proxy exceeds the
      number of columns there were. */
  lemma NewColumnIsWide(segs: seq<DaySegment>, pts: seq<Point>, n: nat, st: Sweep, r: Sweep)
    requires SortedBy(pts, PointOrder) && Consistent(segs, pts) && HasEnds(segs, pts) && Positive(segs)
    requires n < |pts| && !pts[n].isEnd
    requires Wf(segs, st) && ActiveUntilEnd(segs, pts, n, st) && StartedBefore(segs, pts, n, st)
    requires StartedOnce(segs, pts, n, st) && ColumnEnds(segs, st)
    requires forall j | 0 <= j < |st.colEnds| :: st.colEnds[j] > segs[pts[n].seg].start
    requires StartEffect(segs, st, pts[n], |st.colEnds|, r)
    ensures r.proxy[pts[n].seg] >= |st.colEnds| + 1
  {
    BusyAtStart(segs, pts, n, st);
  }

  /** The count behind `NewColumnIsWide`: the starting segment overlaps at least
      one active segment per busy column, and itself. */
  lemma BusyAtStart(segs: seq<DaySegment>, pts: seq<Point>, n: nat, st: Sweep)
    requires SortedBy(pts, PointOrder) && Consistent(segs, pts) && HasEnds(segs, pts) && Positive(segs)
    requires n < |pts| && !pts[n].isEnd
    requires Wf(segs, st) && ActiveUntilEnd(segs, pts, n, st) && StartedBefore(segs, pts, n, st)
    requires StartedOnce(segs, pts, n, st) && ColumnEnds(segs, st)
    requires forall j | 0 <= j < |st.colEnds| :: st.colEnds[j] > segs[pts[n].seg].start
    ensures |st.colEnds| + 1 <= OverlapCount(segs, segs[pts[n].seg], st.active + [pts[n].seg])
  {
    var s := pts[n].seg;
    var w := BusySegments(segs, pts, n, st);
    CountWithStart(segs, st.active, s, w);
  }

  /** The started segments still running at a start: one per column at least,
      all active, all overlapping the starting segment, which is not among them. */
  lemma BusySegments(segs: seq<DaySegment>, pts: seq<Point>, n: nat, st: Sweep) returns (w: set<nat>)
    requires SortedBy(pts, PointOrder) && Consistent(segs, pts) && HasEnds(segs, pts) && Positive(segs)
    requires n < |pts| && !pts[n].isEnd
    requires Wf(segs, st) && ActiveUntilEnd(segs, pts, n, st) && StartedBefore(segs, pts, n, st)
    requires StartedOnce(segs, pts, n, st) && ColumnEnds(segs, st)
    requires forall j | 0 <= j < |st.colEnds| :: st.colEnds[j] > segs[pts[n].seg].start
    ensures pts[n].seg !in w && |st.colEnds| <= |w|
    ensures forall k | k in w :: k in st.active && k < |segs| && SegmentsOverlap(segs[pts[n].seg], segs[k])
  {
    var s := pts[n].seg;
    var seg := segs[s];
    assert pts[n] == Point(seg.start, false, s);
    assert s !in st.column;
    w := set k | k in st.column && segs[k].end > seg.start;
    BusyOverlap(segs, pts, n, st, w);
    EveryColumnHit(segs, st, seg.start, w);
    CoverCount(w, st.column, |st.colEnds|);
  }

  lemma CountWithStart(segs: seq<DaySegment>, active: seq<nat>, s: nat, w: set<nat>)
    requires s < |segs| && segs[s].start < segs[s].end && s !in w
    requires forall k | k in active :: k < |segs|
    requires forall k | k in w :: k in active && k < |segs| && SegmentsOverlap(segs[s], segs[k])
    ensures |w| + 1 <= OverlapCount(segs, segs[s], active + [s])
  {
    var d := w + {s};
    assert |d| == |w| + 1;
    ActiveWithStart(segs, active, s, w);
    assert forall k | k in active + [s] :: k < |segs|;
    CountAtLeast(segs, segs[s], active + [s], d);
  }

  lemma ActiveWithStart(segs: seq<DaySegment>, active: seq<nat>, s: nat, w: set<nat>)
    requires s < |segs| && segs[s].start < segs[s].end
    requires forall k | k in w :: k in active && k < |segs| && SegmentsOverlap(segs[s], segs[k])
    ensures forall k | k in w + {s} :: k in active + [s] && SegmentsOverlap(segs[s], segs[k])
  {
  }

  /** The started segments still running at a start are active and overlap the
      starting segment. */
  lemma BusyOverlap(segs: seq<DaySegment>, pts: seq<Point>, n: nat, st: Sweep, w: set<nat>)
    requires SortedBy(pts, PointOrder) && Consistent(segs, pts) && HasEnds(segs, pts) && Positive(segs)
    requires n < |pts| && !pts[n].isEnd
    requires Wf(segs, st) && ActiveUntilEnd(segs, pts, n, st) && StartedBefore(segs, pts, n, st)
    requires forall k | k in w :: k in st.column && segs[k].end > segs[pts[n].seg].start
    ensures forall k | k in w :: k in st.active && SegmentsOverlap(segs[pts[n].seg], segs[k])
  {
    forall k | k in w ensures k in st.active && SegmentsOverlap(segs[pts[n].seg], segs[k]) {
      BusyIsActive(segs, pts, n, st, k);
      assert segs[k].start <= pts[n].time;
    }
  }

  /** Every column is ended by a segment still running at `t`, when all columns
      end after `t`. */
  lemma EveryColumnHit(segs: seq<DaySegment>, st: Sweep, t: int, w: set<nat>)
    requires Wf(segs, st) && ColumnEnds(segs, st)
    requires forall j | 0 <= j < |st.colEnds| :: st.colEnds[j] > t
    requires w == set k | k in st.column && segs[k].end > t
    ensures forall cc | 0 <= cc < |st.colEnds| :: Hits(w, st.column, cc)
  {
    forall cc | 0 <= cc < |st.colEnds| ensures Hits(w, st.column, cc) {
      assert EndsAt(segs, st, cc);
      var k :| k in st.column && st.column[k] == cc && segs[k].end == st.colEnds[cc];
      assert k in w;
    }
  }

  /** A started segment that ends after the current start has not ended yet, so
      it is still active. */
  lemma BusyIsActive(segs: seq<DaySegment>, pts: seq<Point>, n: nat, st: Sweep, k: nat)
    requires SortedBy(pts, PointOrder) && Consistent(segs, pts) && HasEnds(segs, pts)
    requires n < |pts| && !pts[n].isEnd
    requires Wf(segs, st) && ActiveUntilEnd(segs, pts, n, st)
    requires k in st.column && segs[k].end > pts[n].time
    ensures k in st.active
  {
    var e := Point(segs[k].end, true, k);
    var m :| 0 <= m < |pts| && pts[m] == e;
    assert n <= m;
  }

  lemma InvStep(segs: seq<DaySegment>, pts: seq<Point>, n: nat, st: Sweep)
    requires PointsOf(segs, pts) && 0 < n <= |pts|
    requires Wf(segs, st) && SweepInv(segs, pts, n - 1, st)
    ensures SweepInv(segs, pts, n, Step(segs, st, pts[n - 1]))
  {
    var p := pts[n - 1];
    StepEffect(segs, st, p);
    InvEffect(segs, pts, n - 1, st, Step(segs, st, p));
  }


  /** The invariant survives any state change with the effect of the step. */
  lemma InvEffect(segs: seq<DaySegment>, pts: seq<Point>, n: nat, st: Sweep, r: Sweep)
    requires PointsOf(segs, pts) && n < |pts|
    requires Wf(segs, st) && Wf(segs, r) && SweepInv(segs, pts, n, st)
    requires pts[n].isEnd ==> EndEffect(segs, st, pts[n], r)
    requires !pts[n].isEnd ==> StartEffect(segs, st, pts[n], FirstFreeColumn(st.colEnds, segs[pts[n].seg].start, 0), r)
    ensures SweepInv(segs, pts, n + 1, r)
  {
    var p := pts[n];
    if p.isEnd {
      InvStepEnd(segs, pts, n, st, r);
    } else {
      var c := FirstFreeColumn(st.colEnds, segs[p.seg].start, 0);
      if c == |st.colEnds| {
        NewColumnIsWide(segs, pts, n, st, r);
      }
      InvStepStart(segs, pts, n, st, c, r);
    }
  }

  lemma SweepInvHolds(segs: seq<DaySegment>, pts: seq<Point>, n: nat)
    requires PointsOf(segs, pts) && n <= |pts|
    ensures SweepInv(segs, pts, n, Run(segs, pts, n))
  {
    StartInv(segs, pts);
    var i := 0;
    while i < n
      invariant i <= n && SweepInv(segs, pts, i, Run(segs, pts, i))
    {
      i := i + 1;
      RunStep(segs, pts, i);
    }
  }


  /** The invariant after the first `n` points from the invariant before the last. */
  lemma RunStep(segs: seq<DaySegment>, pts: seq<Point>, n: nat)
    requires PointsOf(segs, pts) && 0 < n <= |pts|
    requires SweepInv(segs, pts, n - 1, Run(segs, pts, n - 1))
    ensures SweepInv(segs, pts, n, Run(segs, pts, n))
  {
    assert Run(segs, pts, n) == Step(segs, Run(segs, pts, n - 1), pts[n - 1]);
    InvStep(segs, pts, n, Run(segs, pts, n - 1));
  }



  lemma StartInv(segs: seq<DaySegment>, pts: seq<Point>)
    ensures SweepInv(segs, pts, 0, StartSweep)
  {
  }

  lemma {:induction false} DistinctCounts<T>(s: seq<T>)
    requires Distinct(s)
    ensures forall x :: multiset(s)[x] <= 1
    decreases |s|
  {
    if s != [] {
      assert s == [s[0]] + s[1..];
      DistinctCounts(s[1..]);
      assert s[0] !in s[1..];
    }
  }

  lemma CountsDistinct<T>(s: seq<T>)
    requires forall x :: multiset(s)[x] <= 1
    ensures Distinct(s)
  {
    forall i, j | 0 <= i < j < |s| ensures s[i] != s[j] {
      if s[i] == s[j] {
        TwoCopies(s, i, j);
      }
    }
  }

  lemma TwoCopies<T>(s: seq<T>, i: int, j: int)
    requires 0 <= i < j < |s| && s[i] == s[j]
    ensures multiset(s)[s[i]] >= 2
  {
    assert s == s[..j] + s[j..];
    assert s[i] in s[..j];
    assert s[j] in s[j..];
  }

  lemma SortedHasEnds(segs: seq<DaySegment>)
    ensures HasEnds(segs, SortPoints(Points(segs, 0)))
  {
    var raw := Points(segs, 0);
    var pts := SortPoints(raw);
    forall k | 0 <= k < |segs| ensures Point(segs[k].end, true, k) in pts {
      assert Point(segs[k].end, true, k) in multiset(raw);
    }
  }

  lemma SortedConsistent(segs: seq<DaySegment>)
    ensures Consistent(segs, SortPoints(Points(segs, 0)))
  {
    var raw := Points(segs, 0);
    var pts := SortPoints(raw);
    forall i | 0 <= i < |pts| ensures pts[i] in raw {
      assert pts[i] in multiset(pts);
    }
  }

  lemma SortedDistinct(segs: seq<DaySegment>)
    ensures Distinct(SortPoints(Points(segs, 0)))
  {
    var raw := Points(segs, 0);
    DistinctCounts(raw);
    CountsDistinct(SortPoints(raw));
  }

  /** The sorted points of a day satisfy what the sweep relies on. */
  lemma SortedPointsOf(segs: seq<DaySegment>)
    requires Positive(segs)
    ensures PointsOf(segs, SortPoints(Points(segs, 0)))
  {
    SortedHasEnds(segs);
    SortedConsistent(segs);
    SortedDistinct(segs);
  }

  /** Every start point already taken has put its segment in a column. */
  lemma RunStarts(segs: seq<DaySegment>, pts: seq<Point>, n: nat)
    requires n <= |pts| && Bounded(segs, pts)
    ensures StartsPlaced(pts, n, Run(segs, pts, n))
  {
    var j := 0;
    while j < n
      invariant j <= n && StartsPlaced(pts, j, Run(segs, pts, j))
    {
      StepPlacesStart(segs, pts, j, Run(segs, pts, j));
      j := j + 1;
    }
  }

  lemma StepPlacesStart(segs: seq<DaySegment>, pts: seq<Point>, j: nat, st: Sweep)
    requires j < |pts| && pts[j].seg < |segs| && Wf(segs, st) && StartsPlaced(pts, j, st)
    ensures StartsPlaced(pts, j + 1, Step(segs, st, pts[j]))
  {
  }

  /** The sweep of a day's points gives every segment a column. */
  lemma DayPointsPlaceAll(segs: seq<DaySegment>)
    ensures Bounded(segs, DayPoints(segs))
    ensures forall k: nat | k < |segs| :: k in Run(segs, DayPoints(segs), |DayPoints(segs)|).column
  {
    var pts := DayPoints(segs);
    SortedConsistent(segs);
    RunStarts(segs, pts, |pts|);
    DayPointsHaveStarts(segs);
    StartsGiveColumns(segs, pts, Run(segs, pts, |pts|));
  }

  lemma DayPointsHaveStarts(segs: seq<DaySegment>)
    ensures forall k | 0 <= k < |segs| :: Point(segs[k].start, false, k) in DayPoints(segs)
  {
    forall k | 0 <= k < |segs| ensures Point(segs[k].start, false, k) in DayPoints(segs) {
      assert Point(segs[k].start, false, k) in multiset(Points(segs, 0));
    }
  }

  lemma StartsGiveColumns(segs: seq<DaySegment>, pts: seq<Point>, st: Sweep)
    requires StartsPlaced(pts, |pts|, st)
    requires forall k | 0 <= k < |segs| :: Point(segs[k].start, false, k) in pts
    ensures forall k: nat | k < |segs| :: k in st.column
  {
    forall k: nat | k < |segs| ensures k in st.column {
      var i :| 0 <= i < |pts| && pts[i] == Point(segs[k].start, false, k);
    }
  }

}
