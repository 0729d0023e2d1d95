/** Field-level edits of stored events that resizing, dragging and the edit form
    share: JavaScript's `text || fallback`, writing a start or an end as an instant
    read in a zone, and deleting the time fields of an event that becomes all-day. */
module EventEdits {
  import opened Wrappers
  import opened Civil
  import opened Text
  import opened TimeText
  import opened Events

  /** The views of the calendar. */
  datatype View = Year | Month | Week | Day

  /** `text || fallback`: an absent or empty text falls back. */
  function OrElse(text: Option<string>, fallback: string): string {
    if text.Some? && text.value != "" then text.value else fallback
  }

  /** The fields an edit of the dates never touches. */
  predicate SameDetails(a: Event, b: Event) {
    a.id == b.id && a.name == b.name && a.description == b.description
    && a.location == b.location && a.color == b.color && a.rrule == b.rrule
  }

  /** The start texts are what the start instant reads in the start zone: the
      `yyyy-MM-dd` day, the `HH:mm` clock and the zone name itself. */
  predicate StartReads(env: Env, e: Event, zone: string, t: int) {
    env.Offset(zone).Some?
    && e.startUtc == Present(t) && e.startTimezone == Some(zone)
    && e.start == Present(LocalDay(env.Offset(zone).value, t))
    && e.time.Some? && ClockOf(e.time.value) == Some(MinuteOfDay(env.Offset(zone).value, t))
  }

  /** The same for the end fields. */
  predicate EndReads(env: Env, e: Event, zone: string, t: int) {
    env.Offset(zone).Some?
    && e.endUtc == Present(t) && e.endTimezone == Some(zone)
    && e.end == Present(LocalDay(env.Offset(zone).value, t))
    && e.endTime.Some? && ClockOf(e.endTime.value) == Some(MinuteOfDay(env.Offset(zone).value, t))
  }

  /** What luxon's `toFormat` gives for an invalid DateTime. */
  const InvalidDateTime: string := "Invalid DateTime"

  /** `toFormat("yyyy-MM-dd")` of an instant seen in `zone`; not a date when luxon
      does not know the zone. */
  function DayText(env: Env, zone: string, t: int): (d: Field<int>)
    ensures env.Offset(zone).Some? ==> d == Present(LocalDay(env.Offset(zone).value, t))
    ensures env.Offset(zone).None? ==> d == Malformed
  {
    match env.Offset(zone)
    case Some(off) => Present(LocalDay(off, t))
    case None => Malformed
  }

  /** `toFormat("HH:mm")` of an instant seen in `zone`. */
  function ClockText(env: Env, zone: string, t: int): (c: string)
    ensures env.Offset(zone).Some? ==> ClockOf(c) == Some(MinuteOfDay(env.Offset(zone).value, t))
    ensures env.Offset(zone).None? ==> c == InvalidDateTime && ClockOf(c).None?
  {
    match env.Offset(zone)
    case Some(off) =>
      ClockOfFormat(MinuteOfDay(off, t));
      FormatHHmm(MinuteOfDay(off, t))
    case None => InvalidDateTime
  }

  /** Sets `start`, `time`, `start_utc` and `startTimezone` from an instant and a
      zone: `toFormat("yyyy-MM-dd")` and `toFormat("HH:mm")` of the instant in the
      zone, `toUTC().toISO()`, and the zone's name. */
  function WriteStart(env: Env, e: Event, zone: string, t: int): (r: Event)
    ensures env.Offset(zone).Some? ==> StartReads(env, r, zone, t)
    ensures env.Offset(zone).None? ==>
              r.start == Malformed && r.time == Some(InvalidDateTime) && r.startUtc == Present(t) && r.startTimezone == Some(zone)
    ensures SameDetails(r, e)
    ensures r.end == e.end && r.endTime == e.endTime && r.endUtc == e.endUtc && r.endTimezone == e.endTimezone
  {
    e.(start := DayText(env, zone, t), time := Some(ClockText(env, zone, t)),
       startUtc := Present(t), startTimezone := Some(zone))
  }

  /** Sets `end`, `endTime`, `end_utc` and `endTimezone` likewise. */
  function WriteEnd(env: Env, e: Event, zone: string, t: int): (r: Event)
    ensures env.Offset(zone).Some? ==> EndReads(env, r, zone, t)
    ensures env.Offset(zone).None? ==>
              r.end == Malformed && r.endTime == Some(InvalidDateTime) && r.endUtc == Present(t) && r.endTimezone == Some(zone)
    ensures SameDetails(r, e)
    ensures r.start == e.start && r.time == e.time && r.startUtc == e.startUtc && r.startTimezone == e.startTimezone
  {
    e.(end := DayText(env, zone, t), endTime := Some(ClockText(env, zone, t)),
       endUtc := Present(t), endTimezone := Some(zone))
  }

  /** Deletes `time`, `endTime`, `start_utc`, `end_utc` and both zones. */
  function ClearTimes(e: Event): (r: Event)
    ensures SameDetails(r, e) && r.start == e.start && r.end == e.end
    ensures !r.startUtc.Truthy() && !r.endUtc.Truthy()
    ensures r.time.None? && r.endTime.None? && r.startTimezone.None? && r.endTimezone.None?
  {
    e.(time := None, endTime := None, startUtc := Missing, endUtc := Missing, startTimezone := None, endTimezone := None)
  }

  /** `DateTime.fromISO(day, { zone }).set({ hour, minute })` for a minute of the day. */
  function AtClock(env: Env, zone: string, day: int, minute: int): (t: Option<int>)
    requires 0 <= minute < MinutesPerDay
    ensures t.Some? <==> env.Offset(zone).Some?
    ensures t.Some? ==> LocalDay(env.Offset(zone).value, t.value) == day
                        && MinuteOfDay(env.Offset(zone).value, t.value) == minute
  {
    match env.Offset(zone)
    case None => None
    case Some(off) =>
      LocalOfInstant(off, day, minute);
      Some(ToInstant(off, day, minute))
  }

  // ---- the event list ----

  /** `events.findIndex(e => e.id === id)`: the first event with the id. */
  function FirstWithId(events: seq<Event>, id: string): (i: Option<nat>)
    ensures i.Some? ==> i.value < |events| && events[i.value].id == id
    ensures i.Some? ==> forall j | 0 <= j < i.value :: events[j].id != id
    ensures i.None? ==> forall j | 0 <= j < |events| :: events[j].id != id
  {
    if events == [] then None
    else if events[0].id == id then Some(0)
    else match FirstWithId(events[1..], id)
      case None => None
      case Some(k) => Some(k + 1)
  }

  /** The first position holding an id is the one `FirstWithId` finds. */
  lemma FirstWithIdAt(events: seq<Event>, id: string, i: nat)
    requires i < |events| && events[i].id == id
    requires forall j | 0 <= j < i :: events[j].id != id
    ensures FirstWithId(events, id) == Some(i)
  {
  }
}
