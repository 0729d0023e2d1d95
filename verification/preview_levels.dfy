/** The collision tests a resize preview runs against the other events
    (`_findLevelForPreviewSegment`, `checkBasicResizePreviewCollision`): which level
    of a month or year card a preview bar can take, and whether a timed preview in
    the week view overlaps another timed event. Days are local days of the display
    zone; the other events carry the instants the preview preparation gave them. */
module PreviewLevels {
  import opened Wrappers
  import opened Civil
  import opened Events
  import opened EventEdits
  import opened Resize

  /** A bar of the preview: its instants (None when invalid) and whether the
      resized event is all-day. */
  datatype Segment = Segment(start: Option<int>, end: Option<int>, allDay: bool) {
    predicate Valid() {
      start.Some? && end.Some?
    }
  }

  /** Two intervals clipped to local day `d` both keep a positive length and
      overlap there (luxon `Interval.overlaps`). */
  predicate OverlapOnDay(offset: int, d: int, s1: int, e1: int, s2: int, e2: int) {
    var a := Max(s1, StartOfDay(offset, d));
    var b := Min(e1, EndOfDay(offset, d));
    var c := Max(s2, StartOfDay(offset, d));
    var f := Min(e2, EndOfDay(offset, d));
    a < b && c < f && b > c && a < f
  }

  /** The last local day the other event's bar covers: the visual last day of the
      renderer, for an event whose end precedes its start the start's day. */
  function OtherLastDay(offset: int, o: Prepared): (d: int)
    requires o.Valid()
    ensures LocalDay(offset, o.start.value) <= d
  {
    if o.start.value <= o.end.value
    then VisualLastDay(offset, Resolved(o.event, o.start.value, o.end.value, o.allDay, 0, 0))
    else LocalDay(offset, o.start.value)
  }

  // ---- _findLevelForPreviewSegment ----

  /** The other event holds day `d` of the level: it was drawn at that level, its bar
      covers the day, and either side is all-day or their times overlap that day. */
  predicate Blocks(offset: int, seg: Segment, o: Prepared, levels: map<string, int>, level: int, d: int)
    requires seg.Valid()
  {
    o.Valid()
    && o.event.id in levels && levels[o.event.id] == level
    && LocalDay(offset, o.start.value) <= d <= OtherLastDay(offset, o)
    && (seg.allDay || o.allDay
        || OverlapOnDay(offset, d, seg.start.value, seg.end.value, o.start.value, o.end.value))
  }

  predicate DayTaken(offset: int, seg: Segment, others: seq<Prepared>, levels: map<string, int>, level: int, d: int)
    requires seg.Valid()
  {
    exists i | 0 <= i < |others| :: Blocks(offset, seg, others[i], levels, level, d)
  }

  /** No day of the segment, from its start's day to its end's day, is taken. */
  predicate LevelFree(offset: int, seg: Segment, others: seq<Prepared>, levels: map<string, int>, level: int)
    requires seg.Valid()
  {
    forall d | LocalDay(offset, seg.start.value) <= d <= LocalDay(offset, seg.end.value) ::
      !DayTaken(offset, seg, others, levels, level, d)
  }

  method DayOccupied(offset: int, seg: Segment, others: seq<Prepared>, levels: map<string, int>, level: int, d: int)
    returns (taken: bool)
    requires seg.Valid()
    ensures taken <==> DayTaken(offset, seg, others, levels, level, d)
  {
    taken := false;
    var i := 0;
    while i < |others|
      invariant 0 <= i <= |others|
      invariant forall j | 0 <= j < i :: !Blocks(offset, seg, others[j], levels, level, d)
    {
      if Blocks(offset, seg, others[i], levels, level, d) {
        return true;
      }
      i := i + 1;
    }
  }

  /** The lowest level below `maxLevels` on which no day of the segment is taken;
      `maxLevels` when there is none or the segment is invalid. */
  method FindLevelForPreviewSegment(offset: int, seg: Segment, others: seq<Prepared>, levels: map<string, int>, maxLevels: nat)
    returns (level: nat)
    ensures level <= maxLevels
    ensures level < maxLevels ==> seg.Valid() && LevelFree(offset, seg, others, levels, level)
    ensures seg.Valid() ==> forall l | 0 <= l < level :: !LevelFree(offset, seg, others, levels, l)
    ensures level == maxLevels && seg.Valid() ==> forall l | 0 <= l < maxLevels :: !LevelFree(offset, seg, others, levels, l)
  {
    if !seg.Valid() {
      return maxLevels;
    }
    var first := LocalDay(offset, seg.start.value);
    var last := LocalDay(offset, seg.end.value);
    level := 0;
    while level < maxLevels
      invariant level <= maxLevels
      invariant forall l | 0 <= l < level :: !LevelFree(offset, seg, others, levels, l)
    {
      var free := true;
      var d := first;
      while free && d <= last
        invariant first <= d
        invariant free ==> forall k | first <= k < d :: !DayTaken(offset, seg, others, levels, level, k)
        invariant !free ==> !LevelFree(offset, seg, others, levels, level)
        decreases if free then last + 1 - d else -1
      {
        var taken := DayOccupied(offset, seg, others, levels, level, d);
        if taken {
          free := false;
        } else {
          d := d + 1;
        }
      }
      if free {
        return level;
      }
      level := level + 1;
    }
  }

  // ---- checkBasicResizePreviewCollision ----

  /** The other events the week test looks at: timed ones with both UTC fields. */
  predicate TimedOther(o: Prepared) {
    !o.allDay && o.event.startUtc.Truthy() && o.event.endUtc.Truthy() && o.Valid()
  }

  /** The last day the week test scans: the day of the last second before the end,
      or the day before the end's day when it ends at midnight on a later day. */
  function ScanLastDay(offset: int, start: int, end: int): int {
    if MsOfDay(offset, end) < SecondMs && LocalDay(offset, start) != LocalDay(offset, end)
    then LocalDay(offset, end) - 1
    else LocalDay(offset, end - SecondMs)
  }

  /** A timed preview in the week view overlaps a timed other event on some scanned day. */
  predicate Collides(offset: int, view: View, p: Prepared, others: seq<Prepared>) {
    view == Week && !p.allDay && p.Valid()
    && exists d, i | LocalDay(offset, p.start.value) <= d <= ScanLastDay(offset, p.start.value, p.end.value) && 0 <= i < |others| ::
         TimedOther(others[i]) && OverlapOnDay(offset, d, p.start.value, p.end.value, others[i].start.value, others[i].end.value)
  }

  method CheckBasicCollision(offset: int, view: View, p: Prepared, others: seq<Prepared>) returns (hit: bool)
    ensures hit <==> Collides(offset, view, p, others)
  {
    if view != Week || p.allDay || !p.Valid() {
      return false;
    }
    var s := p.start.value;
    var e := p.end.value;
    var first := LocalDay(offset, s);
    var last := ScanLastDay(offset, s, e);
    var d := first;
    while d <= last
      invariant first <= d
      invariant forall k, j | first <= k < d && 0 <= j < |others| ::
                  !(TimedOther(others[j]) && OverlapOnDay(offset, k, s, e, others[j].start.value, others[j].end.value))
      decreases last + 1 - d
    {
      var i := 0;
      while i < |others|
        invariant 0 <= i <= |others|
        invariant forall j | 0 <= j < i ::
                    !(TimedOther(others[j]) && OverlapOnDay(offset, d, s, e, others[j].start.value, others[j].end.value))
      {
        if TimedOther(others[i]) && OverlapOnDay(offset, d, s, e, others[i].start.value, others[i].end.value) {
          return true;
        }
        i := i + 1;
      }
      d := d + 1;
    }
    return false;
  }
}
