/** The pure part of the resize engine (`eventResizer.js`): the instants a preview
    works with, the fields a dragged handle gives an event, and which handle a mouse
    press lands on.

    A resize starts only on a rendered event, so the original carries the instants
    the renderer resolved for it (`_startDt`, `_endDt`, `_isAllDay`). */
module Resize {
  import opened Wrappers
  import opened Civil
  import opened Text
  import opened TimeText
  import opened Events
  import opened EventEdits

  /** The handle being dragged: an edge of a week block, or an end of a bar. */
  datatype Mode = Top | Bottom | Start | End

  /** What the mouse is over: a day, and in the week view's hour grid the hour row
      (the mouse handlers never set `minute`; the function reads it when present). */
  datatype Target = Target(day: int, hour: int, minute: Option<int>) {
    predicate Valid() {
      0 <= hour <= 23 && (minute.Some? ==> 0 <= minute.value <= 59)
    }
  }

  // ---- preview instants ----

  /** `prepareLuxonDtsForPreview`: the event with instants for its start and end;
      None stands for an invalid luxon DateTime. */
  datatype Prepared = Prepared(event: Event, allDay: bool, start: Option<int>, end: Option<int>) {
    predicate Valid() {
      start.Some? && end.Some?
    }
  }

  /** `DateTime.fromISO(date + "T" + time, { zone })`. */
  function DateTimeIn(env: Env, zone: string, day: Field<int>, clock: string): (t: Option<int>)
    ensures t.Some? <==> day.Present? && ClockOf(clock).Some? && env.Offset(zone).Some?
  {
    if day.Present? && ClockOf(clock).Some? then AtClock(env, zone, day.value, ClockOf(clock).value) else None
  }

  /** The fallback for a timed event without `end_utc`: its day and clock texts in
      its zones, and one hour after the start when it has neither an end day nor an
      end time. */
  function FallbackInstants(env: Env, e: Event): (r: (Option<int>, Option<int>))
    requires env.Valid()
  {
    var startTime := OrElse(e.time, "00:00");
    var endTime := OrElse(e.endTime, startTime);
    var endDay := if e.end.Truthy() then e.end else e.start;
    var s := DateTimeIn(env, OrElse(e.startTimezone, env.local), e.start, startTime);
    var u :=
      if OrElse(e.endTime, "") != "" || e.end.Truthy() then
        DateTimeIn(env, OrElse(e.endTimezone, env.local), endDay, endTime)
      else if s.Some? then Some(s.value + HourMs)
      else None;
    (s, u)
  }

  function PrepareForPreview(env: Env, e: Event): (p: Prepared)
    requires env.Valid()
    ensures p.event == e
    ensures p.allDay <==> !e.startUtc.Truthy()
    ensures p.Valid() ==> p.start.value <= p.end.value
    ensures p.allDay ==> (p.start.Some? <==> e.start.Present?) && (p.end.Some? <==> e.end.Present?)
    ensures p.allDay && p.Valid() ==>
              p.start.value == StartOfDay(env.LocalOffset(), e.start.value)
              && p.end.value == if EndOfDay(env.LocalOffset(), e.end.value) < p.start.value
                                then p.start.value + HourMs else EndOfDay(env.LocalOffset(), e.end.value)
    ensures !p.allDay && e.endUtc.Truthy() ==>
              p.start == e.startUtc.Parsed()
              && (p.Valid() ==> e.startUtc.Present? && e.endUtc.Present?
                                && p.end.value == if e.endUtc.value < e.startUtc.value then e.startUtc.value + HourMs else e.endUtc.value)
  {
    var off := env.LocalOffset();
    var allDay := !e.startUtc.Truthy();
    var (s, u) :=
      if allDay then
        (if e.start.Present? then Some(StartOfDay(off, e.start.value)) else None,
         if e.end.Present? then Some(EndOfDay(off, e.end.value)) else None)
      else if e.endUtc.Truthy() then (e.startUtc.Parsed(), e.endUtc.Parsed())
      else FallbackInstants(env, e);
    Prepared(e, allDay, s, if s.Some? && u.Some? && u.value < s.value then Some(s.value + HourMs) else u)
  }

  /** The preview reads a rendered event's instants as the renderer does; only where
      the renderer clamps an end before the start to the start does the preview put
      it one hour after the start. */
  lemma PreviewAgreesWithRenderer(env: Env, e: Event)
    requires env.Valid() && Resolve(env, e).Some?
    ensures var r := Resolve(env, e).value;
            var p := PrepareForPreview(env, e);
            p.Valid() && p.allDay == r.allDay && p.start.value == r.startMs
            && (p.end.value == r.endMs || (r.endMs == r.startMs && p.end.value == r.startMs + HourMs))
  {
  }

  // ---- calculateResizedEventProperties ----

  /** The week view's hour handles apply to a timed event; every other resize moves dates. */
  predicate HourPath(view: View, orig: Resolved, mode: Mode) {
    view == Week && !orig.allDay && (mode == Top || mode == Bottom)
  }

  /** The minute of the day the target row names: `hour` and `minute || 0`. */
  function TargetMinute(t: Target): (m: int)
    requires t.Valid()
    ensures 0 <= m < MinutesPerDay
  {
    t.hour * 60 + t.minute.GetOr(0)
  }

  /** The new start and end instants of an hour-handle resize, before they are
      written; None where luxon's DateTime is invalid (an unknown zone). */
  function HourInstants(env: Env, orig: Resolved, t: Target, mode: Mode): (r: (Option<int>, Option<int>))
    requires env.Valid() && t.Valid()
    requires mode == Top || mode == Bottom
  {
    var startZone := OrElse(orig.event.startTimezone, env.local);
    var endZone := OrElse(orig.event.endTimezone, env.local);
    if mode == Top then
      var s := AtClock(env, startZone, t.day, TargetMinute(t));
      var u := if env.Offset(endZone).Some? then Some(orig.endMs) else None;
      (s, if s.Some? && u.Some? && s.value >= u.value then Some(s.value + HourMs) else u)
    else
      var s := if env.Offset(startZone).Some? then Some(orig.startMs) else None;
      var u :=
        if t.minute.Some? && t.minute.value != 0 then AtClock(env, endZone, t.day, TargetMinute(t))
        else match AtClock(env, endZone, t.day, t.hour * 60)
             case Some(x) => Some(x + HourMs)
             case None => None;
      (s, if s.Some? && u.Some? && u.value <= s.value then Some(s.value + 15 * MinuteMs) else u)
  }

  /** The `top` and `bottom` handles of a timed block in the week view. */
  function HourResize(env: Env, orig: Resolved, t: Target, mode: Mode): (r: Event)
    requires env.Valid() && t.Valid() && !orig.allDay
    requires mode == Top || mode == Bottom
    ensures SameDetails(r, orig.event)
    ensures var zone := OrElse(orig.event.startTimezone, env.local);
            env.Offset(zone).Some? ==>
              exists s :: StartReads(env, r, zone, s)
                          && (mode == Top ==> LocalDay(env.Offset(zone).value, s) == t.day
                                              && MinuteOfDay(env.Offset(zone).value, s) == TargetMinute(t))
                          && (mode == Bottom ==> s == orig.startMs)
    ensures var zone := OrElse(orig.event.endTimezone, env.local);
            env.Offset(zone).Some? ==> exists u :: EndReads(env, r, zone, u)
    ensures env.Offset(OrElse(orig.event.startTimezone, env.local)).Some?
            && env.Offset(OrElse(orig.event.endTimezone, env.local)).Some? ==>
              r.startUtc.Present? && r.endUtc.Present? && r.startUtc.value < r.endUtc.value
    ensures mode == Top && env.Offset(OrElse(orig.event.startTimezone, env.local)).Some?
            && env.Offset(OrElse(orig.event.endTimezone, env.local)).Some? ==>
              r.endUtc.value == if orig.endMs > r.startUtc.value then orig.endMs else r.startUtc.value + HourMs
    ensures mode == Bottom && env.Offset(OrElse(orig.event.startTimezone, env.local)).Some?
            && env.Offset(OrElse(orig.event.endTimezone, env.local)).Some? ==>
              r.endUtc.value == orig.startMs + 15 * MinuteMs
              || (LocalDay(env.Offset(OrElse(orig.event.endTimezone, env.local)).value, r.endUtc.value - (if t.minute.Some? && t.minute.value != 0 then 0 else HourMs)) == t.day
                  && MinuteOfDay(env.Offset(OrElse(orig.event.endTimezone, env.local)).value, r.endUtc.value - (if t.minute.Some? && t.minute.value != 0 then 0 else HourMs)) == TargetMinute(t))
  {
    var startZone := OrElse(orig.event.startTimezone, env.local);
    var endZone := OrElse(orig.event.endTimezone, env.local);
    var (s, u) := HourInstants(env, orig, t, mode);
    HourInstantsFacts(env, orig, t, mode);
    var withStart := if s.Some? then WriteStart(env, orig.event, startZone, s.value) else orig.event;
    var r := if u.Some? then WriteEnd(env, withStart, endZone, u.value) else withStart;
    assert s.Some? ==> StartReads(env, r, startZone, s.value);
    assert u.Some? ==> EndReads(env, r, endZone, u.value);
    r
  }

  /** What the hour handles do to the instants: an instant is written exactly when
      its zone is known, the top handle puts the start on the target row and keeps
      the end unless it no longer follows, the bottom handle keeps the start and puts
      the end on the row's lower edge, and the start always stays before the end. */
  lemma HourInstantsFacts(env: Env, orig: Resolved, t: Target, mode: Mode)
    requires env.Valid() && t.Valid()
    requires mode == Top || mode == Bottom
    ensures var (s, u) := HourInstants(env, orig, t, mode);
            var offS := env.Offset(OrElse(orig.event.startTimezone, env.local));
            var offE := env.Offset(OrElse(orig.event.endTimezone, env.local));
            var k := if t.minute.Some? && t.minute.value != 0 then 0 else HourMs;
            (s.Some? <==> offS.Some?) && (u.Some? <==> offE.Some?)
            && (s.Some? && u.Some? ==> s.value < u.value)
            && (mode == Top && s.Some? ==> LocalDay(offS.value, s.value) == t.day && MinuteOfDay(offS.value, s.value) == TargetMinute(t))
            && (mode == Top && s.Some? && u.Some? ==> u.value == if orig.endMs > s.value then orig.endMs else s.value + HourMs)
            && (mode == Bottom && s.Some? ==> s.value == orig.startMs)
            && (mode == Bottom && s.Some? && u.Some? ==>
                  u.value == orig.startMs + 15 * MinuteMs
                  || (LocalDay(offE.value, u.value - k) == t.day && MinuteOfDay(offE.value, u.value - k) == TargetMinute(t)))
  {
  }

  // ---- date handles ----

  /** The days a date handle leaves: the dragged end moves to the target day, and the
      other end follows it when it would otherwise be passed. None is an invalid day. */
  function DraggedDays(start: Option<int>, end: Option<int>, target: int, mode: Mode): (r: (Option<int>, Option<int>))
    ensures mode == Start ==> r.0 == Some(target) && (r.1.Some? <==> end.Some?)
    ensures mode != Start ==> r.1 == Some(target) && (r.0.Some? <==> start.Some?)
    ensures mode == Start && end.Some? ==> r.1.value == end.value || (end.value < target && r.1.value == target)
    ensures mode != Start && start.Some? ==> r.0.value == start.value || (target < start.value && r.0.value == target)
    ensures r.0.Some? && r.1.Some? ==> r.0.value <= r.1.value
  {
    if mode == Start then
      (Some(target), if end.Some? && target > end.value then Some(target) else end)
    else
      (if start.Some? && target < start.value then Some(target) else start, Some(target))
  }

  /** A date handle on an all-day bar: new days, and the time fields deleted. */
  function AllDayResize(orig: Resolved, t: Target, mode: Mode): (r: Event)
    ensures SameDetails(r, orig.event)
    ensures !r.startUtc.Truthy() && !r.endUtc.Truthy() && r.time.None? && r.endTime.None?
    ensures mode == Start ==> r.start == Present(t.day)
    ensures mode != Start ==> r.end == Present(t.day)
    ensures r.start.Present? && r.end.Present? ==> r.start.value <= r.end.value
    ensures orig.event.start.Present? && orig.event.end.Present? ==> r.start.Present? && r.end.Present?
  {
    var e := orig.event;
    var (s, u) := DraggedDays(e.start.Parsed(), e.end.Parsed(), t.day, mode);
    ClearTimes(e.(start := if s.Some? then Present(s.value) else e.start,
                  end := if u.Some? then Present(u.value) else e.end))
  }

  /** A luxon DateTime that may be invalid, or a call on it that throws. */
  datatype Moment = Invalid | At(ms: int) | Throws

  /** The start of the day in the viewer's zone, moved into `zone` (the instant is
      kept) and given the hour and minute `split(":").map(Number)` reads from the
      clock text there; a minute the text leaves out stays what it was, and hours
      past 23 run on into the next days. A NaN part makes `set` throw on a valid
      DateTime; an invalid one stays invalid. */
  function ClockedDay(env: Env, zone: string, day: Option<int>, clock: string): (m: Moment)
    requires env.Valid()
    ensures m.Throws? <==> day.Some? && env.Offset(zone).Some? && ClockSetOf(clock).Unreadable?
    ensures m.At? <==> day.Some? && env.Offset(zone).Some? && ClockSetOf(clock).SetTo?
  {
    if day.None? || env.Offset(zone).None? then Invalid
    else
      var c := ClockSetOf(clock);
      if c.Unreadable? then Throws
      else
        var off := env.Offset(zone).value;
        var base := StartOfDay(env.LocalOffset(), day.value);
        At(ToInstant(off, LocalDay(off, base), SetMinutes(c, MinuteOfDay(off, base) % 60)))
  }

  /** The instant is the local day's midnight in the zone plus the minutes the clock
      sets, the minute kept from the viewer's day start where the text gives none. */
  lemma ClockedDayInstant(env: Env, zone: string, day: Option<int>, clock: string)
    requires env.Valid()
    ensures var m := ClockedDay(env, zone, day, clock);
            m.At? ==>
              var off := env.Offset(zone).value;
              var base := StartOfDay(env.LocalOffset(), day.value);
              m.ms == StartOfDay(off, LocalDay(off, base)) + SetMinutes(ClockSetOf(clock), MinuteOfDay(off, base) % 60) * MinuteMs
  {
    var m := ClockedDay(env, zone, day, clock);
    if m.At? {
      var off := env.Offset(zone).value;
      var base := StartOfDay(env.LocalOffset(), day.value);
      var x := SetMinutes(ClockSetOf(clock), MinuteOfDay(off, base) % 60);
      assert m.ms == ToInstant(off, LocalDay(off, base), x);
    }
  }

  /** With an "HH:mm" clock text the instant reads that clock in the zone, and in
      the viewer's own zone it is on the day itself. */
  lemma ClockedDayOnClock(env: Env, zone: string, day: Option<int>, clock: string)
    requires env.Valid() && ClockOf(clock).Some?
    ensures var m := ClockedDay(env, zone, day, clock);
            m.At? ==>
              MinuteOfDay(env.Offset(zone).value, m.ms) == ClockOf(clock).value
              && (env.Offset(zone).value == env.LocalOffset() ==> LocalDay(env.LocalOffset(), m.ms) == day.value)
  {
    if day.Some? && env.Offset(zone).Some? {
      var off := env.Offset(zone).value;
      var base := StartOfDay(env.LocalOffset(), day.value);
      ClockSetOfClock(clock);
      var x := ClockOf(clock).value;
      assert SetMinutes(ClockSetOf(clock), MinuteOfDay(off, base) % 60) == x;
      LocalOfInstant(off, LocalDay(off, base), x);
      DayBounds(env.LocalOffset(), day.value);
    }
  }

  /** "24:00" on a day in the viewer's own zone is the midnight that starts the next day. */
  lemma ClockedDayAtMidnightEnd(env: Env, day: int)
    requires env.Valid()
    ensures var m := ClockedDay(env, env.local, Some(day), "24:00");
            m.At? && LocalDay(env.LocalOffset(), m.ms) == day + 1 && MinuteOfDay(env.LocalOffset(), m.ms) == 0
  {
    var app := env.LocalOffset();
    MidnightEndClock();
    DayBounds(app, day);
    LocalOfInstant(app, day + 1, 0);
  }

  /** The instants of a date-handle resize of a timed event: the kept clock texts on
      the new days, the end one day later when it would not follow the start. */
  function DateHandleMoments(env: Env, orig: Resolved, t: Target, mode: Mode): (r: (Moment, Moment))
    requires env.Valid()
  {
    var e := orig.event;
    var (sd, ed) := DraggedDays(e.start.Parsed(), e.end.Parsed(), t.day, mode);
    var s := ClockedDay(env, OrElse(e.startTimezone, env.local), sd, OrElse(e.time, "00:00"));
    var u := ClockedDay(env, OrElse(e.endTimezone, env.local), ed, OrElse(e.endTime, "00:00"));
    (s, Follow(s, u))
  }

  /** The end moment, moved one day on when it would not follow the start. */
  function Follow(s: Moment, u: Moment): (r: Moment)
    ensures r == u || (u.At? && r == At(u.ms + DayMs))
    ensures r.At? <==> u.At?
  {
    if s.At? && u.At? && s.ms >= u.ms then At(u.ms + DayMs) else u
  }

  /** Both written instants read their original "HH:mm" clock texts in their zones. */
  lemma DateHandleClocks(env: Env, orig: Resolved, t: Target, mode: Mode)
    requires env.Valid()
    ensures var e := orig.event;
            var (s, u) := DateHandleMoments(env, orig, t, mode);
            (s.At? && ClockOf(OrElse(e.time, "00:00")).Some? ==>
               FormatHHmm(MinuteOfDay(env.Offset(OrElse(e.startTimezone, env.local)).value, s.ms)) == OrElse(e.time, "00:00"))
            && (u.At? && ClockOf(OrElse(e.endTime, "00:00")).Some? ==>
               FormatHHmm(MinuteOfDay(env.Offset(OrElse(e.endTimezone, env.local)).value, u.ms)) == OrElse(e.endTime, "00:00"))
  {
    var e := orig.event;
    var (sd, ed) := DraggedDays(e.start.Parsed(), e.end.Parsed(), t.day, mode);
    MomentsPrint(env, OrElse(e.startTimezone, env.local), OrElse(e.endTimezone, env.local), sd, ed,
                 OrElse(e.time, "00:00"), OrElse(e.endTime, "00:00"));
  }

  /** Both moments of a date handle print their "HH:mm" clock texts. */
  lemma MomentsPrint(env: Env, zs: string, ze: string, sd: Option<int>, ed: Option<int>, cs: string, ce: string)
    requires env.Valid()
    ensures var s := ClockedDay(env, zs, sd, cs);
            var u := Follow(s, ClockedDay(env, ze, ed, ce));
            (s.At? && ClockOf(cs).Some? ==> FormatHHmm(MinuteOfDay(env.Offset(zs).value, s.ms)) == cs)
            && (u.At? && ClockOf(ce).Some? ==> FormatHHmm(MinuteOfDay(env.Offset(ze).value, u.ms)) == ce)
  {
    var s := ClockedDay(env, zs, sd, cs);
    var u0 := ClockedDay(env, ze, ed, ce);
    var u := Follow(s, u0);
    if s.At? && ClockOf(cs).Some? {
      ClockedDayPrints(env, zs, sd, cs);
    }
    if u.At? && ClockOf(ce).Some? {
      ClockedDayPrints(env, ze, ed, ce);
      if u != u0 {
        assert u.ms == u0.ms + DayMs;
      }
    }
  }

  /** An instant set to an "HH:mm" clock prints that clock in its zone, and so does
      the same instant a day later. */
  lemma ClockedDayPrints(env: Env, zone: string, day: Option<int>, clock: string)
    requires env.Valid()
    ensures var m := ClockedDay(env, zone, day, clock);
            m.At? && ClockOf(clock).Some? ==>
              FormatHHmm(MinuteOfDay(env.Offset(zone).value, m.ms)) == clock
              && FormatHHmm(MinuteOfDay(env.Offset(zone).value, m.ms + DayMs)) == clock
  {
    var m := ClockedDay(env, zone, day, clock);
    if m.At? && ClockOf(clock).Some? {
      ClockedDayOnClock(env, zone, day, clock);
      FormatOfClock(clock);
      NextDaySameClock(env.Offset(zone).value, m.ms);
    }
  }

  /** In the viewer's own zone and with "HH:mm" clock texts a date handle keeps the
      start before the end, puts the dragged start on the target day and the dragged
      end on it or the day after. */
  lemma DateHandleInViewerZone(env: Env, orig: Resolved, t: Target, mode: Mode)
    requires env.Valid()
    ensures var e := orig.event;
            var (s, u) := DateHandleMoments(env, orig, t, mode);
            var app := env.LocalOffset();
            (mode == Start || e.start.Present?) && (mode != Start || e.end.Present?)
            && env.Offset(OrElse(e.startTimezone, env.local)) == Some(app)
            && env.Offset(OrElse(e.endTimezone, env.local)) == Some(app)
            && ClockOf(OrElse(e.time, "00:00")).Some? && ClockOf(OrElse(e.endTime, "00:00")).Some? ==>
              s.At? && u.At? && s.ms < u.ms
              && (mode == Start ==> LocalDay(app, s.ms) == t.day)
              && (mode != Start ==> LocalDay(app, u.ms) == t.day || LocalDay(app, u.ms) == t.day + 1)
  {
    var e := orig.event;
    var app := env.LocalOffset();
    var (sd, ed) := DraggedDays(e.start.Parsed(), e.end.Parsed(), t.day, mode);
    var s := ClockedDay(env, OrElse(e.startTimezone, env.local), sd, OrElse(e.time, "00:00"));
    var u := ClockedDay(env, OrElse(e.endTimezone, env.local), ed, OrElse(e.endTime, "00:00"));
    assert DateHandleMoments(env, orig, t, mode) == (s, Follow(s, u));
    if (mode == Start || e.start.Present?) && (mode != Start || e.end.Present?)
       && env.Offset(OrElse(e.startTimezone, env.local)) == Some(app)
       && env.Offset(OrElse(e.endTimezone, env.local)) == Some(app)
       && ClockOf(OrElse(e.time, "00:00")).Some? && ClockOf(OrElse(e.endTime, "00:00")).Some? {
      ClockSetOfClock(OrElse(e.time, "00:00"));
      ClockSetOfClock(OrElse(e.endTime, "00:00"));
      ClockedDayOnClock(env, OrElse(e.startTimezone, env.local), sd, OrElse(e.time, "00:00"));
      ClockedDayOnClock(env, OrElse(e.endTimezone, env.local), ed, OrElse(e.endTime, "00:00"));
      InstantInLocalDay(app, s.ms);
      InstantInLocalDay(app, u.ms);
      NextDaySameClock(app, u.ms);
    }
  }

  /** A date handle on a timed bar (month and year views); None where luxon throws. */
  function TimedDateResize(env: Env, orig: Resolved, t: Target, mode: Mode): (r: Option<Event>)
    requires env.Valid()
    ensures var e := orig.event;
            r.None? <==>
              ((mode == Start || e.start.Present?) && env.Offset(OrElse(e.startTimezone, env.local)).Some?
               && ClockSetOf(OrElse(e.time, "00:00")).Unreadable?)
              || ((mode != Start || e.end.Present?) && env.Offset(OrElse(e.endTimezone, env.local)).Some?
                  && ClockSetOf(OrElse(e.endTime, "00:00")).Unreadable?)
    ensures r.Some? ==> SameDetails(r.value, orig.event)
    ensures var e := orig.event;
            var zone := OrElse(e.startTimezone, env.local);
            r.Some? && (mode == Start || e.start.Present?) && env.Offset(zone).Some? ==>
              (exists s :: StartReads(env, r.value, zone, s))
              && (ClockOf(OrElse(e.time, "00:00")).Some? ==> r.value.time == Some(OrElse(e.time, "00:00")))
    ensures var e := orig.event;
            var zone := OrElse(e.endTimezone, env.local);
            r.Some? && (mode != Start || e.end.Present?) && env.Offset(zone).Some? ==>
              (exists u :: EndReads(env, r.value, zone, u))
              && (ClockOf(OrElse(e.endTime, "00:00")).Some? ==> r.value.endTime == Some(OrElse(e.endTime, "00:00")))
    ensures var e := orig.event;
            r.Some? && (mode == Start || e.start.Present?) && (mode != Start || e.end.Present?)
            && env.Offset(OrElse(e.startTimezone, env.local)) == Some(env.LocalOffset())
            && env.Offset(OrElse(e.endTimezone, env.local)) == Some(env.LocalOffset())
            && ClockOf(OrElse(e.time, "00:00")).Some? && ClockOf(OrElse(e.endTime, "00:00")).Some? ==>
              r.value.startUtc.Present? && r.value.endUtc.Present?
              && r.value.startUtc.value < r.value.endUtc.value
              && (mode == Start ==> r.value.start == Present(t.day))
              && (mode != Start ==> r.value.end == Present(t.day) || r.value.end == Present(t.day + 1))
  {
    var e := orig.event;
    var (s, u) := DateHandleMoments(env, orig, t, mode);
    if s.Throws? || u.Throws? then None
    else
      DateHandleClocks(env, orig, t, mode);
      DateHandleInViewerZone(env, orig, t, mode);
      Some(WriteMoments(env, e, OrElse(e.startTimezone, env.local), OrElse(e.endTimezone, env.local), s, u))
  }

  /** The event with the instants that exist written, each in its own zone. */
  function WriteMoments(env: Env, e: Event, zs: string, ze: string, s: Moment, u: Moment): (r: Event)
    ensures SameDetails(r, e)
    ensures s.At? && env.Offset(zs).Some? ==> StartReads(env, r, zs, s.ms)
    ensures u.At? && env.Offset(ze).Some? ==> EndReads(env, r, ze, u.ms)
  {
    var withStart := if s.At? then WriteStart(env, e, zs, s.ms) else e;
    if u.At? then WriteEnd(env, withStart, ze, u.ms) else withStart
  }

  // ---- the dispatch ----

  /** `calculateResizedEventProperties` for a rendered original: the fields the
      resize gives the event; None where luxon throws. */
  function CalculateResized(env: Env, orig: Resolved, t: Target, mode: Mode, view: View): (r: Option<Event>)
    requires env.Valid() && t.Valid() && Resolve(env, orig.event) == Some(orig)
    ensures r.Some? ==> SameDetails(r.value, orig.event)
    ensures r.Some? ==> (r.value.startUtc.Truthy() <==> !orig.allDay)
    ensures r.None? ==> !orig.allDay && !HourPath(view, orig, mode)
    ensures orig.allDay ==>
              r.Some? && Resolve(env, r.value).Some? && Resolve(env, r.value).value.allDay
              && r.value.start.value <= r.value.end.value
    ensures HourPath(view, orig, mode)
            && env.Offset(OrElse(orig.event.startTimezone, env.local)).Some?
            && env.Offset(OrElse(orig.event.endTimezone, env.local)).Some? ==>
              r.Some? && Resolve(env, r.value).Some? && !Resolve(env, r.value).value.allDay
              && Resolve(env, r.value).value.startMs < Resolve(env, r.value).value.endMs
  {
    if HourPath(view, orig, mode) then Some(HourResize(env, orig, t, mode))
    else if orig.allDay then Some(AllDayResize(orig, t, mode))
    else TimedDateResize(env, orig, t, mode)
  }

  // ---- the hit test ----

  /** What a press lands on: a timed block of the week grid, an all-day bar of the
      week view, or a bar of the month and year views, with whether it shows the
      event's true first day (`event-overlay-start`) and last day (`event-overlay-end`). */
  datatype Overlay = WeekBlock | WeekAllDayBar | Bar(trueStart: bool, trueEnd: bool)

  /** `RESIZE_HANDLE_WIDTH_PX`. */
  const HandleWidth: real := 10.0

  function MaxReal(a: real, b: real): real {
    if a < b then b else a
  }

  /** How far from a bar's end a press still grabs the handle: the handle width,
      shrunk to 2/5 of the width (at least 5px) on narrow timed bars of the month
      and year views. */
  function HandleThreshold(view: View, allDay: bool, width: real): (h: real)
    ensures 5.0 <= h < 12.0
    ensures h != HandleWidth ==> (view == Month || view == Year) && !allDay && 0.0 < width < 3.0 * HandleWidth
    ensures h != HandleWidth ==> h == width / 2.5 || h == 5.0
  {
    if (view == Month || view == Year) && !allDay && width < HandleWidth * 3.0 && width > 0.0
    then MaxReal(width / 2.5, 5.0)
    else HandleWidth
  }

  /** The handle under a press at `(x, y)` inside an element of the given size. */
  function HitTest(view: View, overlay: Overlay, allDay: bool, x: real, y: real, width: real, height: real): (m: Option<Mode>)
    ensures m.Some? && (m.value == Top || m.value == Bottom) <==>
              view == Week && overlay == WeekBlock && !allDay && (y < HandleWidth || y > height - HandleWidth)
    ensures m == Some(Top) ==> y < HandleWidth
    ensures m == Some(Bottom) ==> height - HandleWidth < y
    ensures m == Some(End) <==>
              !overlay.WeekBlock? && (overlay.WeekAllDayBar? || overlay.trueEnd)
              && width - HandleThreshold(view, allDay, width) < x
    ensures m == Some(Start) ==>
              !overlay.WeekBlock? && (overlay.WeekAllDayBar? || overlay.trueStart)
              && x < HandleThreshold(view, allDay, width)
  {
    if view == Week && overlay == WeekBlock && !allDay then
      if y < HandleWidth then Some(Top)
      else if y > height - HandleWidth then Some(Bottom)
      else None
    else if overlay == WeekBlock then None
    else
      var isStart := overlay.WeekAllDayBar? || overlay.trueStart;
      var isEnd := overlay.WeekAllDayBar? || overlay.trueEnd;
      var h := HandleThreshold(view, allDay, width);
      if isEnd && x > width - h then Some(End)
      else if isStart && x < h then Some(Start)
      else None
  }

  /** The handle a press grabs decides the path of the resize: the edges of a week
      block move hours, the ends of every bar move days. */
  lemma HitSelectsPath(view: View, overlay: Overlay, orig: Resolved, x: real, y: real, width: real, height: real)
    requires HitTest(view, overlay, orig.allDay, x, y, width, height).Some?
    ensures HourPath(view, orig, HitTest(view, overlay, orig.allDay, x, y, width, height).value) <==> overlay == WeekBlock
  {
  }

  /** On a bar at least two thresholds wide the handles do not meet, so no press
      grabs both; on a narrower one the end handle wins where they overlap. */
  lemma HandlesApart(view: View, overlay: Overlay, allDay: bool, x: real, y: real, width: real, height: real)
    requires !overlay.WeekBlock? && (overlay.WeekAllDayBar? || (overlay.trueStart && overlay.trueEnd))
    ensures var h := HandleThreshold(view, allDay, width);
            width >= 2.0 * h ==>
              (HitTest(view, overlay, allDay, x, y, width, height) == Some(Start) <==> x < h)
    ensures var h := HandleThreshold(view, allDay, width);
            width - h < x < h ==> HitTest(view, overlay, allDay, x, y, width, height) == Some(End)
  {
  }
}
