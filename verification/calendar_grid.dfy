/** The month grid's cell arithmetic (`_createMonthGridDOM`), the week-row hover of
    the month and year grids (`handleGridMouseOver`/`handleGridMouseOut`) and the
    context-date reset when the year select changes (`updateCalendar`). */
module CalendarGrid {
  import opened Wrappers
  import opened Civil
  import opened EventEdits

  // ---- cells ----

  /** Empty cells before the 1st: its ISO weekday minus one (Monday gives none).
      The renderer computes the same offset for its cell lookups. */
  function Lead(y: int, m: int): (r: int)
    requires 1 <= m <= 12
    ensures 0 <= r < 7
  {
    IsoWeekday(ToDays(Date(y, m, 1))) - 1
  }

  /** Empty cells after the last day, filling the last row. */
  function Trailing(lead: int, dim: int): (r: int)
    ensures 0 <= r < 7
  {
    (7 - (lead + dim) % 7) % 7
  }

  /** The grid's cells by `data-position`: empty cells (None) before the 1st, the
      days of the month by their number, then empty cells up to the end of the row. */
  function MonthCells(y: int, m: int): (cells: seq<Option<int>>)
    requires 1 <= m <= 12
    ensures |cells| % 7 == 0 && |cells| <= 42
    ensures |cells| == Lead(y, m) + DaysInMonth(y, m) + Trailing(Lead(y, m), DaysInMonth(y, m))
    ensures forall d :: 1 <= d <= DaysInMonth(y, m) ==> cells[Lead(y, m) + d - 1] == Some(d)
    ensures forall p :: 0 <= p < |cells| && cells[p].Some? ==>
              1 <= cells[p].value <= DaysInMonth(y, m) && p == Lead(y, m) + cells[p].value - 1
    ensures |cells| - 7 <= Lead(y, m) + DaysInMonth(y, m) - 1
  {
    var lead := Lead(y, m);
    var dim := DaysInMonth(y, m);
    var trailing := Trailing(lead, dim);
    var cells := seq(lead, p => None) + seq(dim, i => Some(i + 1)) + seq(trailing, p => None);
    RowsFill(lead, dim);
    assert cells[lead + dim - 1] == Some(dim);
    cells
  }

  lemma RowsFill(lead: int, dim: int)
    requires 0 <= lead < 7 && 28 <= dim <= 31
    ensures (lead + dim + Trailing(lead, dim)) % 7 == 0
    ensures lead + dim + Trailing(lead, dim) <= 42
  {
    var n := lead + dim;
    var q := n / 7;
    assert n == 7 * q + n % 7;
    if n % 7 == 0 {
      assert Trailing(lead, dim) == 0;
    } else {
      assert Trailing(lead, dim) == 7 - n % 7;
      assert n + Trailing(lead, dim) == 7 * (q + 1);
    }
  }

  /** Each day sits in the column of its weekday, under the Monday-first header. */
  lemma ColumnIsWeekday(y: int, m: int, d: int)
    requires 1 <= m <= 12 && 1 <= d <= DaysInMonth(y, m)
    ensures (Lead(y, m) + d - 1) % 7 == IsoWeekday(ToDays(Date(y, m, d))) - 1
  {
    var first := ToDays(Date(y, m, 1));
    assert ToDays(Date(y, m, d)) == first + d - 1;
    var q := first / 7;
    assert first == 7 * q + first % 7;
    assert Lead(y, m) + d - 1 == first % 7 + d - 1;
    assert first + d - 1 == 7 * q + (first % 7 + d - 1);
    ModShift(q, first % 7 + d - 1);
  }

  lemma ModShift(q: int, r: int)
    requires r >= 0
    ensures (7 * q + r) % 7 == r % 7
  {
    var k := r / 7;
    assert r == 7 * k + r % 7;
    assert 7 * q + r == 7 * (q + k) + r % 7;
  }

  lemma DivShift(q: int, r: int)
    requires r >= 0
    ensures (7 * q + r) / 7 == q + r / 7
  {
    var k := r / 7;
    assert r == 7 * k + r % 7;
    assert 7 * q + r == 7 * (q + k) + r % 7;
  }

  /** The Sunday ending a day's week is fixed by the day's seven-day block. */
  lemma WeekEndOfBlock(n: int)
    ensures WeekEnd(n) == 7 * (n / 7) + 6
  {
    assert n == 7 * (n / 7) + n % 7;
  }

  /** Two days of a month share a grid row exactly when they share a Monday-to-Sunday
      week: a row of the grid is a calendar week. */
  lemma SameRowIffSameWeek(y: int, m: int, d1: int, d2: int)
    requires 1 <= m <= 12 && 1 <= d1 <= DaysInMonth(y, m) && 1 <= d2 <= DaysInMonth(y, m)
    ensures (Lead(y, m) + d1 - 1) / 7 == (Lead(y, m) + d2 - 1) / 7
            <==> WeekEnd(ToDays(Date(y, m, d1))) == WeekEnd(ToDays(Date(y, m, d2)))
  {
    var first := ToDays(Date(y, m, 1));
    var q := first / 7;
    assert first == 7 * q + first % 7;
    assert ToDays(Date(y, m, d1)) == 7 * q + (first % 7 + d1 - 1);
    assert ToDays(Date(y, m, d2)) == 7 * q + (first % 7 + d2 - 1);
    DivShift(q, first % 7 + d1 - 1);
    DivShift(q, first % 7 + d2 - 1);
    WeekEndOfBlock(ToDays(Date(y, m, d1)));
    WeekEndOfBlock(ToDays(Date(y, m, d2)));
  }

  // ---- week-row hover ----

  /** The positions of the row holding position `p`. */
  function HoverRow(p: int): (row: set<int>)
    requires p >= 0
    ensures p in row && |row| == 7
    ensures forall q :: q in row <==> q / 7 == p / 7 && q >= 0
  {
    var start := p / 7 * 7;
    var row := {start, start + 1, start + 2, start + 3, start + 4, start + 5, start + 6};
    forall q ensures q in row <==> q / 7 == p / 7 && q >= 0 {
      if start <= q < start + 7 {
        assert q == 7 * (p / 7) + (q - start);
      }
    }
    row
  }

  /** Mouse over a cell: in the month and year grids, the highlight moves to the row of
      the day cell under the mouse; an empty cell or the week view leaves it alone. */
  function MouseOver(view: View, cells: seq<Option<int>>, target: nat, highlighted: set<int>): (r: set<int>)
    ensures view == Week || target >= |cells| || cells[target].None? ==> r == highlighted
    ensures view != Week && target < |cells| && cells[target].Some? ==>
              r == (set q | q in HoverRow(target) && q < |cells|)
  {
    if view == Week || target >= |cells| || cells[target].None? then highlighted
    else set q | q in HoverRow(target) && q < |cells|
  }

  /** In a grid of whole rows, the hovered row lies entirely inside the grid. */
  lemma HoverRowInGrid(cells: seq<Option<int>>, p: nat)
    requires |cells| % 7 == 0 && p < |cells|
    ensures forall q :: q in HoverRow(p) ==> q < |cells|
  {
    var n := |cells| / 7;
    assert |cells| == 7 * n;
    assert p / 7 < n;
    forall q | q in HoverRow(p) ensures q < |cells| {
      assert q / 7 == p / 7;
      assert q < 7 * (q / 7 + 1);
    }
  }

  /** Hovering a day of a month grid highlights its whole row and nothing else. */
  lemma HoverHighlightsRow(view: View, y: int, m: int, p: nat, highlighted: set<int>)
    requires 1 <= m <= 12 && view != Week && p < |MonthCells(y, m)| && MonthCells(y, m)[p].Some?
    ensures MouseOver(view, MonthCells(y, m), p, highlighted) == HoverRow(p)
  {
    HoverRowInGrid(MonthCells(y, m), p);
  }

  /** Mouse leaving cell `from` for `to` (None: outside the grid or not a cell): the
      highlight is cleared unless the mouse stays in the same row. */
  function MouseOut(view: View, from: Option<nat>, to: Option<nat>, highlighted: set<int>): (r: set<int>)
    ensures view != Week && from.Some? && to.Some? && to.value in HoverRow(from.value) ==> r == highlighted
    ensures view != Week && from.Some? && to.Some? && to.value !in HoverRow(from.value) ==> r == {}
    ensures view != Week && (from.None? || to.None?) ==> r == {}
    ensures view == Week ==> r == highlighted
  {
    if view == Week then highlighted
    else if from.None? || to.None? then {}
    else if from.value / 7 != to.value / 7 then {}
    else highlighted
  }

  // ---- the year select ----

  /** The context date: year, month index (0 = January) and day of month. */
  datatype Context = Context(year: int, month: int, day: int)

  /** `updateCalendar`'s handling of the year select: a value that is not a number
      is refused (None); a new year moves the context to January 1 in every view,
      and otherwise the context stays. */
  function ChangeYear(view: View, ctx: Context, yearVal: Option<int>): (r: Option<Context>)
    ensures yearVal.None? <==> r.None?
    ensures yearVal.Some? && yearVal.value != ctx.year ==> r == Some(Context(yearVal.value, 0, 1))
    ensures yearVal == Some(ctx.year) ==> r == Some(ctx)
  {
    match yearVal
    case None => None
    case Some(y) =>
      if y == ctx.year then Some(ctx)
      else if view == Month || view == Year then Some(Context(y, 0, 1))
      else if view == Week then
        var jan1 := FromDays(ToDays(Date(y, 1, 1)));
        FromDaysToDays(Date(y, 1, 1));
        Some(Context(y, jan1.month - 1, jan1.day))
      else Some(Context(y, 0, 1))
  }

  /** Whether the grid is rebuilt: a forced redraw, a change of view, or a new year
      (the month and day comparisons that follow compare the context with itself). */
  function Rebuilds(force: bool, oldView: View, view: View, ctx: Context, yearVal: int): (r: bool)
    ensures r <==> force || oldView != view || yearVal != ctx.year
  {
    var dateChanged := yearVal != ctx.year;
    var newCtx := if dateChanged then Context(yearVal, 0, 1) else ctx;
    var dateChanged' := dateChanged
      || (oldView == view && view == Month && ctx.month != newCtx.month)
      || (oldView == view && (view == Week || view == Day) && ctx != newCtx);
    force || oldView != view || dateChanged'
  }
}
