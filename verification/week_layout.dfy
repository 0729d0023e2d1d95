/** Layout of the week and day views (`renderWeekViewEvents`).

    All-day events go into a table of three levels by the view's day columns: an
    event takes the lowest level whose cells are empty on every visible day it
    spans and fills those cells; an event with no such level adds one to the
    hidden count of each visible day it spans.

    Timed events are clipped to each day column. The clipped segments are swept in
    time order, ends before starts at equal times; a starting segment takes the
    first column whose last segment has ended by then, or opens a new column. Every
    block of the day is drawn with the same number of parallel columns, the widest
    overlap the sweep saw. */
module WeekLayout {
  import opened Wrappers
  import opened Civil
  import opened Events
  import opened WeekSweep
  import opened WeekColumns

  const AllDayLevels: nat := 3

  /** The day columns on screen: `days` consecutive local days from `first`. */
  datatype View = View(first: int, days: nat)

  /** The view keeps an event whose interval overlaps the view's, from the start
      of the first day to the end of the last (luxon `Interval.overlaps`). */
  predicate InView(offset: int, view: View, r: Resolved) {
    r.endMs > StartOfDay(offset, view.first) && r.startMs < EndOfDay(offset, view.first + view.days - 1)
  }

  // ---- all-day levels ----

  /** An all-day event as the table sees it: its first and last local day. */
  datatype Span = Span(id: string, first: int, last: int)

  /** One level of `allDayLevels`: per day column, the id drawn there, if any. */
  type Row = seq<Option<string>>

  /** `allDayLevels` and `hiddenAllDayCounts`. */
  datatype AllDay = AllDay(levels: seq<Row>, hidden: seq<nat>)

  predicate Shaped(a: AllDay, n: nat) {
    |a.levels| == AllDayLevels && |a.hidden| == n && forall l | 0 <= l < |a.levels| :: |a.levels[l]| == n
  }

  function EmptyAllDay(n: nat): (a: AllDay)
    ensures Shaped(a, n)
    ensures forall l, i | 0 <= l < AllDayLevels && 0 <= i < n :: a.levels[l][i].None?
    ensures forall i | 0 <= i < n :: a.hidden[i] == 0
  {
    var row := seq(n, i => None);
    AllDay([row, row, row], seq(n, i => 0))
  }

  /** Day column `i` of the view lies within the span. */
  predicate Covers(view: View, i: int, s: Span) {
    s.first <= view.first + i <= s.last
  }

  /** The level is empty on every visible day of the span. */
  predicate RowFree(row: Row, view: View, s: Span) {
    forall i | 0 <= i < |row| && Covers(view, i, s) :: row[i].None?
  }

  function FreeLevel(levels: seq<Row>, view: View, s: Span, l: nat): (r: Option<nat>)
    requires l <= |levels|
    ensures r.Some? ==> l <= r.value < |levels| && RowFree(levels[r.value], view, s)
    ensures r.Some? ==> forall k | l <= k < r.value :: !RowFree(levels[k], view, s)
    ensures r.None? ==> forall k | l <= k < |levels| :: !RowFree(levels[k], view, s)
    decreases |levels| - l
  {
    if l == |levels| then None
    else if RowFree(levels[l], view, s) then Some(l)
    else FreeLevel(levels, view, s, l + 1)
  }

  /** Writes the id into the visible days of the span. */
  function Fill(row: Row, view: View, s: Span): Row {
    seq(|row|, i requires 0 <= i < |row| => if Covers(view, i, s) then Some(s.id) else row[i])
  }

  /** Places one all-day event; the second component is the level it took. */
  function PlaceSpan(view: View, a: AllDay, s: Span): (r: (AllDay, Option<nat>))
    requires Shaped(a, view.days)
    ensures Shaped(r.0, view.days)
    ensures r.1.Some? ==>
              r.1.value < AllDayLevels && RowFree(a.levels[r.1.value], view, s)
              && (forall k | 0 <= k < r.1.value :: !RowFree(a.levels[k], view, s))
    ensures r.1.None? ==> forall k | 0 <= k < AllDayLevels :: !RowFree(a.levels[k], view, s)
    ensures r.1.Some? ==>
              r.0.hidden == a.hidden
              && forall l, i | 0 <= l < AllDayLevels && 0 <= i < view.days ::
                   r.0.levels[l][i] == if l == r.1.value && Covers(view, i, s) then Some(s.id) else a.levels[l][i]
    ensures r.1.None? ==>
              r.0.levels == a.levels
              && forall i | 0 <= i < view.days :: r.0.hidden[i] == a.hidden[i] + if Covers(view, i, s) then 1 else 0
  {
    match FreeLevel(a.levels, view, s, 0)
    case Some(l) => (a.(levels := a.levels[l := Fill(a.levels[l], view, s)]), Some(l))
    case None =>
      (a.(hidden := seq(|a.hidden|, i requires 0 <= i < |a.hidden| => a.hidden[i] + if Covers(view, i, s) then 1 else 0)), None)
  }

  /** A drawn cell is never overwritten: placing an event only fills empty cells. */
  lemma PlaceSpanKeepsDrawn(view: View, a: AllDay, s: Span)
    requires Shaped(a, view.days)
    ensures forall l, i | 0 <= l < AllDayLevels && 0 <= i < view.days && a.levels[l][i].Some? ::
              PlaceSpan(view, a, s).0.levels[l][i] == a.levels[l][i]
  {
  }

  function PlaceSpans(view: View, a: AllDay, spans: seq<Span>): (r: AllDay)
    requires Shaped(a, view.days)
    ensures Shaped(r, view.days)
    decreases |spans|
  {
    if spans == [] then a else PlaceSpans(view, PlaceSpan(view, a, spans[0]).0, spans[1..])
  }

  /** How many levels have a bar in day column `i`. */
  function Occupied(levels: seq<Row>, i: int): nat {
    if levels == [] then 0
    else (if 0 <= i < |levels[0]| && levels[0][i].Some? then 1 else 0) + Occupied(levels[1..], i)
  }

  function Cell(row: Row, i: int): nat {
    if 0 <= i < |row| && row[i].Some? then 1 else 0
  }

  lemma {:induction false} OccupiedUpdate(levels: seq<Row>, l: nat, row: Row, i: int)
    requires l < |levels|
    ensures Occupied(levels[l := row], i) + Cell(levels[l], i) == Occupied(levels, i) + Cell(row, i)
  {
    if l > 0 {
      assert levels[l := row][1..] == levels[1..][l - 1 := row];
      OccupiedUpdate(levels[1..], l - 1, row, i);
    }
  }

  /** How many of the spans cover day column `i`. */
  function Covering(view: View, spans: seq<Span>, i: int): nat {
    if spans == [] then 0 else (if Covers(view, i, spans[0]) then 1 else 0) + Covering(view, spans[1..], i)
  }

  lemma PlaceSpanAccounts(view: View, a: AllDay, s: Span, i: int)
    requires Shaped(a, view.days) && 0 <= i < view.days
    ensures var r := PlaceSpan(view, a, s).0;
            Occupied(r.levels, i) + r.hidden[i] == Occupied(a.levels, i) + a.hidden[i] + if Covers(view, i, s) then 1 else 0
  {
    var r := PlaceSpan(view, a, s);
    if r.1.Some? {
      var l := r.1.value;
      OccupiedUpdate(a.levels, l, r.0.levels[l], i);
      assert r.0.levels == a.levels[l := r.0.levels[l]];
    }
  }

  /** Every all-day event is accounted for on every visible day it spans, exactly
      once: either one level of that day column holds a bar, or the day's hidden
      count ("+N") includes it. */
  lemma {:induction false} EveryAllDayEventAccounted(view: View, a: AllDay, spans: seq<Span>, i: int)
    requires Shaped(a, view.days) && 0 <= i < view.days
    ensures var r := PlaceSpans(view, a, spans);
            Occupied(r.levels, i) + r.hidden[i] == Occupied(a.levels, i) + a.hidden[i] + Covering(view, spans, i)
    decreases |spans|
  {
    if spans != [] {
      PlaceSpanAccounts(view, a, spans[0], i);
      EveryAllDayEventAccounted(view, PlaceSpan(view, a, spans[0]).0, spans[1..], i);
    }
  }

  /** Placing more events never changes a cell that already holds a bar. */
  lemma {:induction false} PlaceSpansKeepsDrawn(view: View, a: AllDay, spans: seq<Span>, l: int, i: int)
    requires Shaped(a, view.days) && 0 <= l < AllDayLevels && 0 <= i < view.days && a.levels[l][i].Some?
    ensures PlaceSpans(view, a, spans).levels[l][i] == a.levels[l][i]
    decreases |spans|
  {
    if spans != [] {
      PlaceSpanKeepsDrawn(view, a, spans[0]);
      PlaceSpansKeepsDrawn(view, PlaceSpan(view, a, spans[0]).0, spans[1..], l, i);
    }
  }

  function SpanOf(offset: int, r: Resolved): Span {
    Span(r.event.id, LocalDay(offset, r.startMs), LocalDay(offset, r.endMs))
  }

  /** The all-day events of the view, in the order they are placed. */
  function AllDaySpans(offset: int, view: View, rs: seq<Resolved>): (spans: seq<Span>)
    ensures |spans| <= |rs|
    ensures forall s | s in spans :: exists r | r in rs :: r.allDay && InView(offset, view, r) && s == SpanOf(offset, r)
    ensures forall r | r in rs && r.allDay && InView(offset, view, r) :: SpanOf(offset, r) in spans
  {
    SpansOfFacts(offset, view, rs);
    SpansOf(offset, view, rs)
  }

  /** The filter and map `AllDaySpans` computes. */
  function SpansOf(offset: int, view: View, rs: seq<Resolved>): seq<Span> {
    if rs == [] then []
    else (if rs[0].allDay && InView(offset, view, rs[0]) then [SpanOf(offset, rs[0])] else []) + SpansOf(offset, view, rs[1..])
  }

  lemma {:induction false} SpansOfFacts(offset: int, view: View, rs: seq<Resolved>)
    ensures var spans := SpansOf(offset, view, rs);
            |spans| <= |rs|
            && (forall s | s in spans :: exists r | r in rs :: r.allDay && InView(offset, view, r) && s == SpanOf(offset, r))
            && (forall r | r in rs && r.allDay && InView(offset, view, r) :: SpanOf(offset, r) in spans)
    decreases |rs|
  {
    if rs != [] {
      SpansOfFacts(offset, view, rs[1..]);
      assert forall r | r in rs[1..] :: r in rs;
      assert forall r | r in rs && r != rs[0] :: r in rs[1..];
    }
  }

  /** The spans of a list are the spans of its parts in turn: the sorted order is kept. */
  lemma AllDaySpansAppend(offset: int, view: View, a: seq<Resolved>, b: seq<Resolved>)
    ensures AllDaySpans(offset, view, a + b) == AllDaySpans(offset, view, a) + AllDaySpans(offset, view, b)
  {
    SpansOfAppend(offset, view, a, b);
  }

  lemma {:induction false} SpansOfAppend(offset: int, view: View, a: seq<Resolved>, b: seq<Resolved>)
    ensures SpansOf(offset, view, a + b) == SpansOf(offset, view, a) + SpansOf(offset, view, b)
    decreases |a|
  {
    if a == [] {
      assert a + b == b;
    } else {
      assert (a + b)[0] == a[0] && (a + b)[1..] == a[1..] + b;
      SpansOfAppend(offset, view, a[1..], b);
    }
  }

  /** One event gives its span when it is an all-day event in view, and none otherwise. */
  lemma AllDaySpansSingle(offset: int, view: View, r: Resolved)
    ensures AllDaySpans(offset, view, [r]) == if r.allDay && InView(offset, view, r) then [SpanOf(offset, r)] else []
  {
    assert [r][1..] == [];
    assert SpansOf(offset, view, [r][1..]) == [];
  }

  function WeekAllDay(offset: int, view: View, rs: seq<Resolved>): (a: AllDay)
    ensures Shaped(a, view.days)
  {
    PlaceSpans(view, EmptyAllDay(view.days), AllDaySpans(offset, view, rs))
  }

  /** In the week's all-day table each day column shows, as bars or in its "+N" count,
      exactly as many events as there are all-day spans covering it. */
  lemma WeekAllDayCounts(offset: int, view: View, rs: seq<Resolved>, i: int)
    requires 0 <= i < view.days
    ensures var a := WeekAllDay(offset, view, rs);
            Occupied(a.levels, i) + a.hidden[i] == Covering(view, AllDaySpans(offset, view, rs), i)
  {
    var e := EmptyAllDay(view.days);
    EveryAllDayEventAccounted(view, e, AllDaySpans(offset, view, rs), i);
    OccupiedEmpty(e.levels, i);
  }

  /** No level with a bar in the column: nothing is occupied. */
  lemma {:induction false} OccupiedEmpty(levels: seq<Row>, i: int)
    requires forall l | 0 <= l < |levels| && 0 <= i < |levels[l]| :: levels[l][i].None?
    ensures Occupied(levels, i) == 0
    decreases |levels|
  {
    if levels != [] {
      assert forall l | 0 <= l < |levels[1..]| :: levels[1..][l] == levels[l + 1];
      OccupiedEmpty(levels[1..], i);
    }
  }

  /** A span in the list counts on every day column it covers. */
  lemma {:induction false} CoveringOfMember(view: View, spans: seq<Span>, s: Span, i: int)
    requires s in spans && Covers(view, i, s)
    ensures Covering(view, spans, i) >= 1
    decreases |spans|
  {
    if spans[0] != s {
      assert s in spans[1..];
      CoveringOfMember(view, spans[1..], s, i);
    }
  }

  /** Every all-day event overlapping the week shows on each visible day it spans,
      as a bar on some level or in that day's "+N" count. */
  lemma AllDayEventShown(offset: int, view: View, rs: seq<Resolved>, r: Resolved, i: int)
    requires r in rs && r.allDay && InView(offset, view, r)
    requires 0 <= i < view.days && Covers(view, i, SpanOf(offset, r))
    ensures var a := WeekAllDay(offset, view, rs);
            Occupied(a.levels, i) + a.hidden[i] >= 1
  {
    WeekAllDayCounts(offset, view, rs, i);
    CoveringOfMember(view, AllDaySpans(offset, view, rs), SpanOf(offset, r), i);
  }

  // ---- timed columns ----

  /** The event clipped to the local day: from the later of its start and the
      day's start to the earlier of its end and the day's end. */
  function Clip(offset: int, day: int, r: Resolved): DaySegment {
    DaySegment(r.event.id, Max(r.startMs, StartOfDay(offset, day)), Min(r.endMs, EndOfDay(offset, day)))
  }

  /** `dailySegments`: the non-empty clips of the view's timed events, in order. */
  function DaySegments(offset: int, view: View, day: int, rs: seq<Resolved>): (segs: seq<DaySegment>)
    ensures forall s | s in segs :: s.start < s.end
    ensures forall s | s in segs :: StartOfDay(offset, day) <= s.start && s.end <= EndOfDay(offset, day)
    ensures forall s | s in segs :: exists r | r in rs :: !r.allDay && InView(offset, view, r) && s == Clip(offset, day, r)
    ensures forall r | r in rs && !r.allDay && InView(offset, view, r) && Clip(offset, day, r).start < Clip(offset, day, r).end ::
              Clip(offset, day, r) in segs
  {
    if rs == [] then []
    else
      var rest := DaySegments(offset, view, day, rs[1..]);
      assert forall r | r in rs[1..] :: r in rs;
      assert forall r | r in rs && r != rs[0] :: r in rs[1..];
      var c := Clip(offset, day, rs[0]);
      if !rs[0].allDay && InView(offset, view, rs[0]) && c.start < c.end then [c] + rest else rest
  }

  /** Every day column of the view: its all-day table and its timed blocks. */
  datatype Week = Week(allDay: AllDay, columns: seq<seq<Block>>)

  function WeekOf(offset: int, view: View, rs: seq<Resolved>): (w: Week)
    ensures Shaped(w.allDay, view.days)
    ensures |w.columns| == view.days
  {
    Week(WeekAllDay(offset, view, rs),
         seq(view.days, i => TimedBlocks(offset, DaySegments(offset, view, view.first + i, rs))))
  }
}
