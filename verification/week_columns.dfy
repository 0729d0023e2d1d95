/** The timed blocks of one day column: the column of each segment from the
    sweep, and the number of parallel columns every block of the day is drawn
    with, the largest proxy the sweep recorded. */
module WeekColumns {
  import opened Civil
  import opened WeekSweep
  import opened SweepProofs

  /** `overallMaxParallel`: at least one, and at least every proxy below `n`. */
  function Widest(proxy: map<nat, nat>, n: nat): (w: nat)
    ensures 1 <= w
    ensures forall k: nat | k < n && k in proxy :: proxy[k] <= w
    ensures w == 1 || exists k: nat | k < n && k in proxy :: proxy[k] == w
  {
    if n == 0 then 1
    else
      var w := Widest(proxy, n - 1);
      if n - 1 in proxy && proxy[n - 1] > w then proxy[n - 1] else w
  }

  /** A drawn block: its segment, column and number of parallel columns.
      `visible` is false when the block's clock minutes give it no height. */
  datatype Block = Block(id: string, start: int, end: int, column: nat, parallel: nat, visible: bool)

  /** The sweep over one day column's segments. */
  function SweepDay(segs: seq<DaySegment>): (st: Sweep)
    requires forall k | 0 <= k < |segs| :: segs[k].start < segs[k].end
    ensures Wf(segs, st)
    ensures forall k: nat :: k in st.column <==> k < |segs|
  {
    DayPointsPlaceAll(segs);
    Run(segs, DayPoints(segs), |DayPoints(segs)|)
  }

  lemma SweepDayDisjoint(segs: seq<DaySegment>)
    requires Positive(segs)
    ensures ColumnsDisjoint(segs, SweepDay(segs))
  {
    var pts := DayPoints(segs);
    SortedPointsOf(segs);
    assert SweepDay(segs) == Run(segs, pts, |pts|);
    RunKeepsColumnsDisjoint(segs, pts, |pts|);
  }

  lemma SweepDayFitsWidth(segs: seq<DaySegment>)
    requires Positive(segs)
    ensures var st := SweepDay(segs);
            forall k | k in st.column :: st.column[k] < Widest(st.proxy, |segs|)
  {
    var pts := DayPoints(segs);
    SortedPointsOf(segs);
    SweepInvHolds(segs, pts, |pts|);
    WideFits(segs, SweepDay(segs));
  }

  /** Every column index is below the widest proxy once some proxy reaches the
      number of columns. */
  lemma WideFits(segs: seq<DaySegment>, st: Sweep)
    requires Wf(segs, st) && WideEnough(st)
    ensures forall k | k in st.column :: st.column[k] < Widest(st.proxy, |segs|)
  {
    if |st.colEnds| > 0 {
      var k :| k in st.proxy && st.proxy[k] >= |st.colEnds|;
      assert k < |segs|;
    }
  }


  /** The outcome of a day's sweep: a column per segment, and the number of
      parallel columns every block of the day is drawn with. */
  datatype Columns = Columns(column: seq<nat>, parallel: nat)

  /** The column of every segment, in segment order. */
  function ColumnOf(segs: seq<DaySegment>): (column: seq<nat>)
    requires Positive(segs)
    ensures |column| == |segs|
  {
    ColumnsOf(segs, SweepDay(segs))
  }

  function ColumnsOf(segs: seq<DaySegment>, st: Sweep): (column: seq<nat>)
    requires forall k: nat :: k in st.column <==> k < |segs|
    ensures |column| == |segs|
    ensures forall k | 0 <= k < |segs| :: column[k] == st.column[k]
  {
    seq(|segs|, k requires 0 <= k < |segs| => st.column[k])
  }

  /** `overallMaxParallel` of the day. */
  function ParallelOf(segs: seq<DaySegment>): (w: nat)
    requires Positive(segs)
    ensures 1 <= w
  {
    Widest(SweepDay(segs).proxy, |segs|)
  }

  lemma ColumnOfDisjoint(segs: seq<DaySegment>)
    requires Positive(segs)
    ensures forall j, k | 0 <= j < k < |segs| && ColumnOf(segs)[j] == ColumnOf(segs)[k] ::
              segs[j].end <= segs[k].start || segs[k].end <= segs[j].start
  {
    SweepDayDisjoint(segs);
    ColumnsOfDisjoint(segs, SweepDay(segs));
  }

  lemma ColumnsOfDisjoint(segs: seq<DaySegment>, st: Sweep)
    requires Wf(segs, st) && ColumnsDisjoint(segs, st)
    requires forall k: nat :: k in st.column <==> k < |segs|
    ensures var column := ColumnsOf(segs, st);
            forall j, k | 0 <= j < k < |segs| && column[j] == column[k] ::
              segs[j].end <= segs[k].start || segs[k].end <= segs[j].start
  {
    var column := ColumnsOf(segs, st);
    forall j, k | 0 <= j < k < |segs| && column[j] == column[k]
      ensures segs[j].end <= segs[k].start || segs[k].end <= segs[j].start
    {
      assert st.column[j] == st.column[k];
    }
  }

  lemma ColumnOfFits(segs: seq<DaySegment>)
    requires Positive(segs)
    ensures forall k | 0 <= k < |segs| :: ColumnOf(segs)[k] < ParallelOf(segs)
  {
    SweepDayFitsWidth(segs);
    ColumnsOfFit(segs, SweepDay(segs));
  }

  lemma ColumnsOfFit(segs: seq<DaySegment>, st: Sweep)
    requires forall k: nat :: k in st.column <==> k < |segs|
    requires forall k | k in st.column :: st.column[k] < Widest(st.proxy, |segs|)
    ensures var column := ColumnsOf(segs, st);
            forall k | 0 <= k < |segs| :: column[k] < Widest(st.proxy, |segs|)
  {
  }

  function DayColumns(segs: seq<DaySegment>): (c: Columns)
    requires forall k | 0 <= k < |segs| :: segs[k].start < segs[k].end
    ensures |c.column| == |segs| && 1 <= c.parallel
    ensures forall k | 0 <= k < |segs| :: c.column[k] < c.parallel
    ensures forall j, k | 0 <= j < k < |segs| && c.column[j] == c.column[k] ::
              segs[j].end <= segs[k].start || segs[k].end <= segs[j].start
  {
    ColumnOfDisjoint(segs);
    ColumnOfFits(segs);
    Columns(ColumnOf(segs), ParallelOf(segs))
  }

  function BlocksOf(offset: int, segs: seq<DaySegment>, c: Columns): (blocks: seq<Block>)
    requires |c.column| == |segs| && 1 <= c.parallel
    requires forall k | 0 <= k < |segs| :: c.column[k] < c.parallel
    requires forall j, k | 0 <= j < k < |segs| && c.column[j] == c.column[k] ::
              segs[j].end <= segs[k].start || segs[k].end <= segs[j].start
    ensures |blocks| == |segs|
    ensures forall k | 0 <= k < |segs| ::
              blocks[k].id == segs[k].id && blocks[k].start == segs[k].start && blocks[k].end == segs[k].end
    ensures forall k | 0 <= k < |segs| ::
              blocks[k].visible <==> MinuteOfDay(offset, segs[k].start) < MinuteOfDay(offset, segs[k].end)
    ensures forall k | 0 <= k < |segs| :: blocks[k].column < blocks[k].parallel == blocks[0].parallel
    ensures forall j, k | 0 <= j < k < |segs| && blocks[j].column == blocks[k].column ::
              segs[j].end <= segs[k].start || segs[k].end <= segs[j].start
  {
    var blocks := seq(|segs|, k requires 0 <= k < |segs| =>
      Block(segs[k].id, segs[k].start, segs[k].end, c.column[k], c.parallel,
            MinuteOfDay(offset, segs[k].start) < MinuteOfDay(offset, segs[k].end)));
    assert forall k | 0 <= k < |segs| :: blocks[k].column == c.column[k] && blocks[k].parallel == c.parallel;
    blocks
  }
  /** The blocks of one day column: each segment with its column and the shared
      number of parallel columns. */
  function TimedBlocks(offset: int, segs: seq<DaySegment>): (blocks: seq<Block>)
    requires forall k | 0 <= k < |segs| :: segs[k].start < segs[k].end
    ensures |blocks| == |segs|
    ensures forall k | 0 <= k < |segs| ::
              blocks[k].id == segs[k].id && blocks[k].start == segs[k].start && blocks[k].end == segs[k].end
    ensures forall k | 0 <= k < |segs| ::
              blocks[k].visible <==> MinuteOfDay(offset, segs[k].start) < MinuteOfDay(offset, segs[k].end)
    ensures forall k | 0 <= k < |segs| :: blocks[k].column < blocks[k].parallel == blocks[0].parallel
    ensures forall j, k | 0 <= j < k < |segs| && blocks[j].column == blocks[k].column ::
              segs[j].end <= segs[k].start || segs[k].end <= segs[j].start
  {
    BlocksOf(offset, segs, DayColumns(segs))
  }
}
