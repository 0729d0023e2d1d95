/** Moving an event by drag and drop (`dragDrop.js`): what the drag remembers of
    the event when it starts, what kind of event a drop slot asks for, and the
    fields `updateEventDates` gives the event. */
module DragDrop {
  import opened Wrappers
  import opened Civil
  import opened Text
  import opened TimeText
  import opened Events
  import opened EventEdits

  /** `draggedEventData`: the id, whether the event was all-day when the drag
      started, and its length `end_utc - start_utc` (null unless both parse). */
  datatype DragData = DragData(id: string, allDay: bool, duration: Option<int>)

  /** The element a drop lands on: a day of the month or year grid, the all-day row
      of the week view, or an hour slot of the week view with its "HH:00" time. */
  datatype DropSlot = DayCell | WeekAllDaySlot | HourSlot(time: string)

  function DragDataOf(e: Event): (d: DragData)
    ensures d.id == e.id
    ensures d.allDay <==> !e.startUtc.Truthy()
    ensures d.duration.Some? <==> e.startUtc.Present? && e.endUtc.Present?
    ensures d.duration.Some? ==> e.startUtc.value + d.duration.value == e.endUtc.value
  {
    var allDay := !e.startUtc.Truthy();
    DragData(e.id, allDay,
             if !allDay && e.startUtc.Present? && e.endUtc.Present? then Some(e.endUtc.value - e.startUtc.value) else None)
  }

  /** An hour slot makes the event timed, the week's all-day row makes it all-day,
      and a day cell keeps what the event was when the drag started. */
  function DropIntentAllDay(slot: DropSlot, data: DragData): (allDay: bool)
    ensures slot.HourSlot? ==> !allDay
    ensures slot.WeekAllDaySlot? ==> allDay
    ensures slot.DayCell? ==> allDay == data.allDay
  {
    match slot
    case HourSlot(_) => false
    case WeekAllDaySlot => true
    case DayCell => data.allDay
  }

  /** The clock text the timed drop starts at: the slot's time, else the event's
      own `time`, else midnight (None). */
  function DropClock(slot: DropSlot, e: Event): (c: Option<string>)
    ensures c.Some? ==> c.value != ""
    ensures slot.HourSlot? && slot.time != "" ==> c == Some(slot.time)
    ensures !(slot.HourSlot? && slot.time != "") && e.time.Some? && e.time.value != "" ==> c == e.time
    ensures c.None? <==> !(slot.HourSlot? && slot.time != "") && (e.time.None? || e.time.value == "")
  {
    if slot.HourSlot? && slot.time != "" then Some(slot.time)
    else if e.time.Some? && e.time.value != "" then e.time
    else None
  }

  /** An all-day drop: the event keeps its span of days when it was all-day and
      becomes a single day otherwise. None where luxon throws: the span of an
      all-day event whose days do not parse is NaN. */
  function DropAllDay(e: Event, day: int, data: DragData): (r: Option<Event>)
    ensures r.None? <==> data.allDay && !(e.start.Present? && e.end.Present?)
    ensures r.Some? ==>
              SameDetails(r.value, e) && r.value.start == Present(day) && r.value.end.Present?
              && r.value.end.value - day == (if data.allDay then e.end.value - e.start.value else 0)
              && !r.value.startUtc.Truthy() && !r.value.endUtc.Truthy()
              && r.value.time.None? && r.value.endTime.None? && r.value.startTimezone.None? && r.value.endTimezone.None?
  {
    var span := if !data.allDay then Some(0)
                else if e.start.Present? && e.end.Present? then Some(e.end.value - e.start.value)
                else None;
    match span
    case None => None
    case Some(n) => Some(ClearTimes(e.(start := Present(day), end := Present(day + n))))
  }

  /** The hour and minute a timed drop sets: the clock text read with
      `split(":").map(Number)`, or [0, 0] when there is none. */
  function DropSet(clock: Option<string>): ClockSet {
    if clock.Some? then ClockSetOf(clock.value) else SetTo(0, Some(0))
  }

  /** An "HH:mm" clock, or none, sets a minute of the dropped day itself. */
  lemma DropSetOfClock(off: int, day: int, clock: Option<string>)
    ensures clock.None? || ClockOf(clock.value).Some? ==>
              var minute := if clock.Some? then ClockOf(clock.value).value else 0;
              DropSet(clock).SetTo?
              && LocalDay(off, ToInstant(off, day, SetMinutes(DropSet(clock), 0))) == day
              && MinuteOfDay(off, ToInstant(off, day, SetMinutes(DropSet(clock), 0))) == minute
  {
    if clock.Some? && ClockOf(clock.value).Some? {
      ClockSetOfClock(clock.value);
      LocalOfInstant(off, day, ClockOf(clock.value).value);
    } else if clock.None? {
      LocalOfInstant(off, day, 0);
    }
  }

  /** A timed drop: the start is the dropped day's midnight in the start zone with
      the clock's hour and minute set (running on into the next days past 23:59),
      the end the remembered length later (an hour when none), read in the end zone.
      With an unknown start zone every field becomes invalid; None where `set`
      throws on a clock part that is NaN. */
  function DropTimed(env: Env, e: Event, day: int, clock: Option<string>, data: DragData): (r: Option<Event>)
    requires env.Valid()
    ensures var startZone := OrElse(e.startTimezone, env.local);
            r.None? <==> env.Offset(startZone).Some? && DropSet(clock).Unreadable?
    ensures r.Some? ==> SameDetails(r.value, e)
    ensures var startZone := OrElse(e.startTimezone, env.local);
            var endZone := OrElse(e.endTimezone, env.local);
            r.Some? && env.Offset(startZone).Some? ==>
              r.value.startUtc.Present? && r.value.endUtc.Present?
              && StartReads(env, r.value, startZone, r.value.startUtc.value)
              && r.value.startUtc.value
                 == StartOfDay(env.Offset(startZone).value, day) + SetMinutes(DropSet(clock), 0) * MinuteMs
              && r.value.endUtc.value - r.value.startUtc.value == data.duration.GetOr(HourMs)
              && r.value.endTimezone == Some(endZone)
              && (env.Offset(endZone).Some? ==> EndReads(env, r.value, endZone, r.value.endUtc.value))
    ensures var startZone := OrElse(e.startTimezone, env.local);
            r.Some? && env.Offset(startZone).None? ==>
              r.value.start == Malformed && r.value.end == Malformed
              && !r.value.startUtc.Truthy() && !r.value.endUtc.Truthy()
  {
    var startZone := OrElse(e.startTimezone, env.local);
    var endZone := OrElse(e.endTimezone, env.local);
    match env.Offset(startZone)
    case None =>
      Some(e.(start := Malformed, time := Some(InvalidDateTime), end := Malformed, endTime := Some(InvalidDateTime),
              startUtc := Missing, endUtc := Missing, startTimezone := Some(startZone), endTimezone := Some(endZone)))
    case Some(off) =>
      var c := DropSet(clock);
      if c.Unreadable? then None
      else
        Some(MovedTo(env, e, startZone, endZone, ToInstant(off, day, SetMinutes(c, 0)), data.duration.GetOr(HourMs)))
  }

  /** The event starting at `s` in the start zone and ending `length` later in the end zone. */
  function MovedTo(env: Env, e: Event, startZone: string, endZone: string, s: int, length: int): (r: Event)
    requires env.Valid() && env.Offset(startZone).Some?
    ensures SameDetails(r, e) && StartReads(env, r, startZone, s)
    ensures r.endUtc == Present(s + length) && r.endTimezone == Some(endZone)
    ensures env.Offset(endZone).Some? ==> EndReads(env, r, endZone, s + length)
  {
    WriteEnd(env, WriteStart(env, e, startZone, s), endZone, s + length)
  }

  /** Dropped with an "HH:mm" clock, or none, a timed event starts on the dropped
      day at that clock in its start zone. */
  lemma DropOnClock(env: Env, e: Event, day: int, clock: Option<string>, data: DragData)
    requires env.Valid() && env.Offset(OrElse(e.startTimezone, env.local)).Some?
    requires clock.None? || ClockOf(clock.value).Some?
    ensures var r := DropTimed(env, e, day, clock, data);
            var off := env.Offset(OrElse(e.startTimezone, env.local)).value;
            var minute := if clock.Some? then ClockOf(clock.value).value else 0;
            r.Some? && LocalDay(off, r.value.startUtc.value) == day && MinuteOfDay(off, r.value.startUtc.value) == minute
  {
    var off := env.Offset(OrElse(e.startTimezone, env.local)).value;
    DropSetOfClock(off, day, clock);
    assert DropTimed(env, e, day, clock, data).value.startUtc.value == ToInstant(off, day, SetMinutes(DropSet(clock), 0));
  }

  /** A clock of "24:00" runs on to the next day's midnight. */
  lemma DropAtMidnightEnd(env: Env, e: Event, day: int, data: DragData)
    requires env.Valid() && env.Offset(OrElse(e.startTimezone, env.local)).Some?
    ensures var r := DropTimed(env, e, day, Some("24:00"), data);
            var off := env.Offset(OrElse(e.startTimezone, env.local)).value;
            r.Some? && LocalDay(off, r.value.startUtc.value) == day + 1 && MinuteOfDay(off, r.value.startUtc.value) == 0
  {
    var off := env.Offset(OrElse(e.startTimezone, env.local)).value;
    MidnightEndClock();
    LocalOfInstant(off, day + 1, 0);
  }

  /** A clock of "9:00", which is not "HH:mm", still sets 09:00 on the dropped day. */
  lemma DropAtShortHour(env: Env, e: Event, day: int, data: DragData)
    requires env.Valid() && env.Offset(OrElse(e.startTimezone, env.local)).Some?
    ensures var r := DropTimed(env, e, day, Some("9:00"), data);
            var off := env.Offset(OrElse(e.startTimezone, env.local)).value;
            r.Some? && LocalDay(off, r.value.startUtc.value) == day && MinuteOfDay(off, r.value.startUtc.value) == 9 * 60
  {
    var off := env.Offset(OrElse(e.startTimezone, env.local)).value;
    ShortHourClock();
    LocalOfInstant(off, day, 9 * 60);
  }

  /** `updateEventDates`. */
  function UpdateEventDates(env: Env, e: Event, day: int, slot: DropSlot, data: DragData): (r: Option<Event>)
    requires env.Valid()
    ensures r.Some? ==> SameDetails(r.value, e)
    ensures r.Some? && DropIntentAllDay(slot, data) ==> !r.value.startUtc.Truthy()
    ensures r.Some? && !DropIntentAllDay(slot, data) ==>
              (r.value.startUtc.Truthy() <==> env.Offset(OrElse(e.startTimezone, env.local)).Some?)
  {
    if DropIntentAllDay(slot, data) then DropAllDay(e, day, data)
    else DropTimed(env, e, day, DropClock(slot, e), data)
  }

  /** Moving a rendered timed event keeps its length: dropped with the data its drag
      started with, in zones luxon knows, it resolves to an event exactly as long. */
  lemma MoveKeepsLength(env: Env, e: Event, day: int, slot: DropSlot)
    requires env.Valid() && Resolve(env, e).Some? && !Resolve(env, e).value.allDay
    requires !DropIntentAllDay(slot, DragDataOf(e))
    requires env.Offset(OrElse(e.startTimezone, env.local)).Some?
    requires UpdateEventDates(env, e, day, slot, DragDataOf(e)).Some?
    ensures var moved := UpdateEventDates(env, e, day, slot, DragDataOf(e)).value;
            Resolve(env, moved).Some? && !Resolve(env, moved).value.allDay
            && Resolve(env, moved).value.Duration() == Resolve(env, e).value.Duration()
  {
  }

  /** Moving an all-day event by its day keeps its number of days. */
  lemma MoveKeepsDays(env: Env, e: Event, day: int, slot: DropSlot)
    requires env.Valid() && Resolve(env, e).Some? && Resolve(env, e).value.allDay
    requires DropIntentAllDay(slot, DragDataOf(e))
    ensures var moved := UpdateEventDates(env, e, day, slot, DragDataOf(e));
            moved.Some? && Resolve(env, moved.value).Some? && Resolve(env, moved.value).value.allDay
            && moved.value.end.value - moved.value.start.value == e.end.value - e.start.value
  {
  }
}
