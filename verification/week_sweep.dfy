/** The timed-event sweep of one day column of the week view: the sweep of
    `renderWeekViewEvents` over the start and end points of the day's segments.
    Points are taken in time order with ends before starts at equal times; a start
    takes the first column whose last segment has ended by then, or opens a new
    column; after every point each active segment's `numParallelProxy` is raised to
    the number of active segments it overlaps. */
module WeekSweep {
  import opened Events
  import opened Sorting

  /** The part of a timed event that falls in one day column. */
  datatype DaySegment = DaySegment(id: string, start: int, end: int)

  predicate Distinct<T(==)>(s: seq<T>) {
    forall i, j | 0 <= i < j < |s| :: s[i] != s[j]
  }

  /** A start or end of segment number `seg`. */
  datatype Point = Point(time: int, isEnd: bool, seg: nat)

  /** The points of segments `k..`: each segment's start, then its end. */
  function Points(segs: seq<DaySegment>, k: nat): (pts: seq<Point>)
    requires k <= |segs|
    ensures |pts| == 2 * (|segs| - k)
    ensures forall p | p in pts :: k <= p.seg < |segs|
    ensures forall p | p in pts :: p.time == if p.isEnd then segs[p.seg].end else segs[p.seg].start
    ensures forall j | k <= j < |segs| :: Point(segs[j].start, false, j) in pts
    ensures forall j | k <= j < |segs| :: Point(segs[j].end, true, j) in pts
    ensures Distinct(pts)
    decreases |segs| - k
  {
    if k == |segs| then []
    else [Point(segs[k].start, false, k), Point(segs[k].end, true, k)] + Points(segs, k + 1)
  }

  /** The order of the point sort: earlier first, and an end before a start at the
      same time. */
  predicate PointOrder(a: Point, b: Point) {
    a.time < b.time || (a.time == b.time && (a.isEnd || !b.isEnd))
  }

  lemma PointOrderIsTotalPreorder()
    ensures TotalPreorder(PointOrder)
  {
  }

  /** The comparator of the point sort. */
  function PointCompare(a: Point, b: Point): int {
    if a.time < b.time then -1
    else if a.time > b.time then 1
    else if a.isEnd then -1
    else 1
  }

  /** Where the comparator is consistent, it is `PointOrder`: for points at
      different times, or of different kinds, it puts `a` first exactly when
      `PointOrder` does and `b` first exactly when the reverse holds. For two points
      of the same kind at the same time it answers the same in both directions, so
      their order is left to the sort; the model keeps them in input order. */
  lemma PointCompareIsPointOrder(a: Point, b: Point)
    ensures a.time != b.time || a.isEnd != b.isEnd ==>
              (PointCompare(a, b) < 0 <==> PointOrder(a, b))
              && (PointCompare(a, b) > 0 <==> PointOrder(b, a))
    ensures a.time == b.time && a.isEnd == b.isEnd ==> PointCompare(a, b) == PointCompare(b, a) != 0
  {
  }

  function SortPoints(pts: seq<Point>): (sorted: seq<Point>)
    ensures SortedBy(sorted, PointOrder)
    ensures multiset(sorted) == multiset(pts)
  {
    PointOrderIsTotalPreorder();
    SortBy(pts, PointOrder)
  }

  /** In the sorted points no start precedes an end at the same time. */
  lemma EndsBeforeStarts(pts: seq<Point>, i: int, j: int)
    requires 0 <= i < j < |SortPoints(pts)|
    ensures var s := SortPoints(pts);
            s[i].time <= s[j].time && (s[i].time == s[j].time && s[j].isEnd ==> s[i].isEnd)
  {
  }

  /** `activeSegments`, `columnAssignments` (column and `numParallelProxy` per
      segment) and `columnEndTimes`. */
  datatype Sweep = Sweep(colEnds: seq<int>, column: map<nat, nat>, proxy: map<nat, nat>, active: seq<nat>)

  const StartSweep: Sweep := Sweep([], map[], map[], [])

  predicate Wf(segs: seq<DaySegment>, st: Sweep) {
    (forall k | k in st.column :: k < |segs| && st.column[k] < |st.colEnds|)
    && st.proxy.Keys == st.column.Keys
    && (forall k | k in st.active :: k < |segs|)
  }

  /** The first column whose last segment has ended by `start`; `|colEnds|` when
      there is none. */
  function FirstFreeColumn(colEnds: seq<int>, start: int, i: nat): (c: nat)
    requires i <= |colEnds|
    ensures i <= c <= |colEnds|
    ensures c < |colEnds| ==> colEnds[c] <= start
    ensures forall j | i <= j < c :: colEnds[j] > start
    decreases |colEnds| - i
  {
    if i == |colEnds| then i
    else if colEnds[i] <= start then i
    else FirstFreeColumn(colEnds, start, i + 1)
  }

  /** `activeSegments.splice(findIndex(...), 1)`: drops the first occurrence. */
  function RemoveFirst(s: seq<nat>, x: nat): (r: seq<nat>)
    ensures multiset(r) == multiset(s) - multiset{x}
  {
    if s == [] then []
    else if s[0] == x then
      assert s == [s[0]] + s[1..];
      s[1..]
    else
      assert s == [s[0]] + s[1..];
      [s[0]] + RemoveFirst(s[1..], x)
  }

  predicate SegmentsOverlap(a: DaySegment, b: DaySegment) {
    a.start < b.end && a.end > b.start
  }

  /** The number of active segments `a` overlaps, itself included. */
  function OverlapCount(segs: seq<DaySegment>, a: DaySegment, active: seq<nat>): (n: nat)
    requires forall k | k in active :: k < |segs|
    ensures n <= |active|
  {
    if active == [] then 0
    else
      assert active[0] in active && forall k | k in active[1..] :: k in active;
      (if SegmentsOverlap(a, segs[active[0]]) then 1 else 0) + OverlapCount(segs, a, active[1..])
  }

  /** Raises the proxy of each active segment to its current overlap count. */
  function RaiseProxies(segs: seq<DaySegment>, proxy: map<nat, nat>, todo: seq<nat>, active: seq<nat>): (r: map<nat, nat>)
    requires forall k | k in active :: k < |segs|
    requires forall k | k in todo :: k < |segs|
    ensures r.Keys == proxy.Keys
    ensures forall k | k in proxy :: proxy[k] <= r[k]
    ensures forall k | k in proxy && k in todo :: OverlapCount(segs, segs[k], active) <= r[k]
  {
    if todo == [] then proxy
    else
      var k := todo[0];
      assert k in todo && forall j | j in todo[1..] :: j in todo;
      var p := if k in proxy then proxy[k := Max(proxy[k], OverlapCount(segs, segs[k], active))] else proxy;
      RaiseProxies(segs, p, todo[1..], active)
  }

  /** One point of the sweep before the proxies are raised: a start takes the
      first free column (or a new one) and becomes active; an end leaves the
      active list. */
  function Place(segs: seq<DaySegment>, st: Sweep, p: Point): (r: Sweep)
    requires p.seg < |segs| && Wf(segs, st)
    ensures Wf(segs, r)
    ensures r.column.Keys == if p.isEnd then st.column.Keys else st.column.Keys + {p.seg}
  {
    var s := segs[p.seg];
    if p.isEnd then
      var r := st.(active := RemoveFirst(st.active, p.seg));
      assert forall k | k in r.active :: k in st.active by {
        forall k | k in r.active ensures k in st.active {
          assert k in multiset(r.active);
        }
      }
      r
    else
      var c := FirstFreeColumn(st.colEnds, s.start, 0);
      Sweep(if c == |st.colEnds| then st.colEnds + [s.end] else st.colEnds[c := s.end],
            st.column[p.seg := c], st.proxy[p.seg := 0], st.active + [p.seg])
  }

  /** One point of the sweep. */
  function Step(segs: seq<DaySegment>, st: Sweep, p: Point): (r: Sweep)
    requires p.seg < |segs| && Wf(segs, st)
    ensures Wf(segs, r)
    ensures r.column.Keys == if p.isEnd then st.column.Keys else st.column.Keys + {p.seg}
  {
    var next := Place(segs, st, p);
    next.(proxy := RaiseProxies(segs, next.proxy, next.active, next.active))
  }

  /** Every point names a segment of the day. */
  predicate Bounded(segs: seq<DaySegment>, pts: seq<Point>) {
    forall i | 0 <= i < |pts| :: pts[i].seg < |segs|
  }

  /** The sweep over the first `n` points, in order. */
  function Run(segs: seq<DaySegment>, pts: seq<Point>, n: nat): (r: Sweep)
    requires n <= |pts| && Bounded(segs, pts)
    ensures Wf(segs, r)
    decreases n
  {
    if n == 0 then StartSweep else Step(segs, Run(segs, pts, n - 1), pts[n - 1])
  }

  /** The points of one day in the order the sweep takes them. */
  function DayPoints(segs: seq<DaySegment>): seq<Point> {
    SortPoints(Points(segs, 0))
  }

  // ---- what the sweep keeps ----

  /** Every start among the first `n` points has its segment in a column. */
  predicate StartsPlaced(pts: seq<Point>, n: nat, st: Sweep) {
    forall i | 0 <= i < n && i < |pts| && !pts[i].isEnd :: pts[i].seg in st.column
  }

  /** Segments that share a column do not overlap, and each column's end time is
      no earlier than the end of any segment in it. */
  predicate ColumnsDisjoint(segs: seq<DaySegment>, st: Sweep)
    requires Wf(segs, st)
  {
    (forall k | k in st.column :: segs[k].end <= st.colEnds[st.column[k]])
    && forall k1, k2 | k1 in st.column && k2 in st.column && k1 != k2 && st.column[k1] == st.column[k2] ::
         segs[k1].end <= segs[k2].start || segs[k2].end <= segs[k1].start
  }

  // ---- the width of the day ----
  /** Each point's time is the time of the segment end it stands for. */
  predicate Consistent(segs: seq<DaySegment>, pts: seq<Point>) {
    forall i | 0 <= i < |pts| ::
      pts[i].seg < |segs| && pts[i].time == if pts[i].isEnd then segs[pts[i].seg].end else segs[pts[i].seg].start
  }

  predicate HasEnds(segs: seq<DaySegment>, pts: seq<Point>) {
    forall k | 0 <= k < |segs| :: Point(segs[k].end, true, k) in pts
  }

  predicate Positive(segs: seq<DaySegment>) {
    forall k | 0 <= k < |segs| :: segs[k].start < segs[k].end
  }

  /** What the sweep relies on in its input: the day's points, each once, in the
      point order, and segments of positive length. */
  predicate PointsOf(segs: seq<DaySegment>, pts: seq<Point>) {
    SortedBy(pts, PointOrder) && Distinct(pts) && Consistent(segs, pts) && HasEnds(segs, pts) && Positive(segs)
  }

  /** Every started segment began no later than the points still to come. */
  predicate StartedBefore(segs: seq<DaySegment>, pts: seq<Point>, n: nat, st: Sweep)
    requires Wf(segs, st)
  {
    forall k, i | k in st.column && n <= i < |pts| :: segs[k].start <= pts[i].time
  }

  /** A started segment stays active while its end is still to come. */
  predicate ActiveUntilEnd(segs: seq<DaySegment>, pts: seq<Point>, n: nat, st: Sweep)
    requires Wf(segs, st)
  {
    forall k, i | k in st.column && n <= i < |pts| && pts[i] == Point(segs[k].end, true, k) :: k in st.active
  }

  /** A started segment does not start again. */
  predicate StartedOnce(segs: seq<DaySegment>, pts: seq<Point>, n: nat, st: Sweep)
    requires Wf(segs, st)
  {
    forall k, i | k in st.column && n <= i < |pts| :: pts[i] != Point(segs[k].start, false, k)
  }

  /** Some segment of column `c` ends at the column's end time. */
  predicate EndsAt(segs: seq<DaySegment>, st: Sweep, c: int)
    requires Wf(segs, st)
  {
    exists k :: k in st.column && st.column[k] == c && 0 <= c < |st.colEnds| && segs[k].end == st.colEnds[c]
  }

  predicate ColumnEnds(segs: seq<DaySegment>, st: Sweep)
    requires Wf(segs, st)
  {
    forall c | 0 <= c < |st.colEnds| :: EndsAt(segs, st, c)
  }

  /** Some proxy is at least the number of columns opened. */
  predicate WideEnough(st: Sweep) {
    |st.colEnds| == 0 || exists k :: k in st.proxy && st.proxy[k] >= |st.colEnds|
  }

  predicate SweepInv(segs: seq<DaySegment>, pts: seq<Point>, n: nat, st: Sweep) {
    Wf(segs, st) && StartedBefore(segs, pts, n, st) && ActiveUntilEnd(segs, pts, n, st) && StartedOnce(segs, pts, n, st)
    && ColumnEnds(segs, st) && WideEnough(st)
  }

  /** What an end point does: the segment leaves the active list once, and
      nothing else but the proxies changes; no proxy drops. */
  predicate EndEffect(segs: seq<DaySegment>, st: Sweep, p: Point, r: Sweep) {
    r.column == st.column && r.colEnds == st.colEnds && r.proxy.Keys == st.proxy.Keys
    && multiset(r.active) == multiset(st.active) - multiset{p.seg}
    && forall k | k in st.proxy :: st.proxy[k] <= r.proxy[k]
  }

  /** What a start point does: the segment takes column `c`, which now ends with
      it, and becomes active; no other proxy drops, and its own proxy is at least
      the number of active segments it overlaps. */
  predicate StartEffect(segs: seq<DaySegment>, st: Sweep, p: Point, c: nat, r: Sweep)
    requires p.seg < |segs| && forall k | k in st.active :: k < |segs|
  {
    r.column == st.column[p.seg := c] && r.active == st.active + [p.seg]
    && c <= |st.colEnds|
    && r.colEnds == (if c == |st.colEnds| then st.colEnds + [segs[p.seg].end] else st.colEnds[c := segs[p.seg].end])
    && r.proxy.Keys == r.column.Keys
    && (forall k | k in st.proxy && k != p.seg :: k in r.proxy && st.proxy[k] <= r.proxy[k])
    && p.seg in r.proxy && OverlapCount(segs, segs[p.seg], r.active) <= r.proxy[p.seg]
  }

  /** A set whose image under `f` covers `0..n-1` has at least `n` elements. */
  predicate Hits(w: set<nat>, f: map<nat, nat>, c: int) {
    exists k :: k in w && k in f && f[k] == c
  }
}
