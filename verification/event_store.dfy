/** The stored event list behind the edit dialog and the day list: which events a
    clicked day lists (`getEventsForDate`), what saving the dialog writes
    (`addOrUpdateCustomEvent`) and what deleting removes (`deleteEvent`). */
module EventStore {
  import opened Wrappers
  import opened Civil
  import opened Text
  import opened TimeText
  import opened Events
  import opened EventEdits
  import IcsImport

  // ---- keeping the elements a predicate accepts (`Array.prototype.filter`) ----

  function Keep<T(!new)>(s: seq<T>, p: T -> bool): (r: seq<T>)
    ensures |r| <= |s|
    ensures forall x :: x in r <==> x in s && p(x)
  {
    if s == [] then [] else (if p(s[0]) then [s[0]] else []) + Keep(s[1..], p)
  }

  /** Filtering a concatenation filters each part and keeps them in order; with
      `KeepSingle` this pins down the order of the survivors exactly. */
  lemma {:induction false} KeepAppend<T(!new)>(a: seq<T>, b: seq<T>, p: T -> bool)
    ensures Keep(a + b, p) == Keep(a, p) + Keep(b, p)
  {
    if a == [] {
      assert a + b == b;
    } else {
      assert (a + b)[0] == a[0] && (a + b)[1..] == a[1..] + b;
      KeepAppend(a[1..], b, p);
    }
  }

  lemma KeepSingle<T(!new)>(x: T, p: T -> bool)
    ensures Keep([x], p) == if p(x) then [x] else []
  {
    assert [x][1..] == [];
  }

  /** A list whose every element passes is kept whole. */
  lemma {:induction false} KeepAll<T(!new)>(s: seq<T>, p: T -> bool)
    requires forall k :: 0 <= k < |s| ==> p(s[k])
    ensures Keep(s, p) == s
  {
    if s != [] {
      KeepAll(s[1..], p);
    }
  }

  /** Filtering twice by the same predicate is filtering once. */
  lemma KeepTwice<T(!new)>(s: seq<T>, p: T -> bool)
    ensures Keep(Keep(s, p), p) == Keep(s, p)
  {
    var r := Keep(s, p);
    assert forall k :: 0 <= k < |r| ==> r[k] in r;
    KeepAll(r, p);
  }

  // ---- the day list ----

  /** luxon `Interval.overlaps` of the half-open intervals [s1, e1) and [s2, e2). */
  predicate Overlaps(s1: int, e1: int, s2: int, e2: int) {
    s2 < e1 && s1 < e2
  }

  /** Whether the list of local day `day` (offset `off`) shows an event: records
      without a start or end day never; an event with both instants by the overlap
      of its instants with the day from its first to its last millisecond (an
      interval ending before it starts is invalid and overlaps nothing); any other
      event by its start and end days. */
  predicate ListedOn(off: int, e: Event, day: int) {
    if !e.start.Truthy() || !e.end.Truthy() then false
    else if e.startUtc.Truthy() && e.endUtc.Truthy() then
      match (e.startUtc, e.endUtc)
      case (Present(s), Present(t)) =>
        s <= t && Overlaps(StartOfDay(off, day), EndOfDay(off, day), s, t)
      case _ => false
    else
      match (e.start, e.end)
      case (Present(a), Present(b)) =>
        StartOfDay(off, a) <= StartOfDay(off, day) <= StartOfDay(off, b)
      case _ => false
  }

  /** `getEventsForDate`: the stored events the clicked local day lists, in stored order. */
  function EventsForDate(env: Env, events: seq<Event>, day: int): (r: seq<Event>)
    requires env.Valid()
    ensures forall e :: e in r <==> e in events && ListedOn(env.LocalOffset(), e, day)
  {
    var off := env.LocalOffset();
    Keep(events, e => ListedOn(off, e, day))
  }

  /** The day list of two stored lists one after the other is the two day lists
      one after the other: the order of the stored list is kept. */
  lemma EventsForDateAppend(env: Env, a: seq<Event>, b: seq<Event>, day: int)
    requires env.Valid()
    ensures EventsForDate(env, a + b, day) == EventsForDate(env, a, day) + EventsForDate(env, b, day)
  {
    var off := env.LocalOffset();
    KeepAppend(a, b, e => ListedOn(off, e, day));
  }

  /** An all-day event is listed on exactly the days from its start day through its
      end day; one whose end precedes its start is listed on no day. */
  lemma AllDayListedIff(off: int, e: Event, day: int)
    requires e.start.Present? && e.end.Present? && !(e.startUtc.Truthy() && e.endUtc.Truthy())
    ensures ListedOn(off, e, day) <==> e.start.value <= day <= e.end.value
  {
  }

  /** `s < EndOfDay(day)`: the instant falls on that local day or an earlier one,
      and not in the day's last millisecond. */
  lemma BeforeDayEnd(off: int, s: int, day: int)
    ensures s < EndOfDay(off, day) <==>
              LocalDay(off, s) <= day && !(LocalDay(off, s) == day && MsOfDay(off, s) == DayMs - 1)
  {
    var l := LocalMs(off, s);
    var q := l / DayMs;
    var m := l % DayMs;
    assert l == q * DayMs + m;
    assert s < EndOfDay(off, day) <==> l + 1 < (day + 1) * DayMs;
    if q < day {
      assert q * DayMs <= (day - 1) * DayMs;
    } else if q > day {
      assert q * DayMs >= (day + 1) * DayMs;
    }
  }

  /** `StartOfDay(day) < t`: the millisecond before `t` falls on that day or later. */
  lemma AfterDayStart(off: int, t: int, day: int)
    ensures StartOfDay(off, day) < t <==> day <= LocalDay(off, t - 1)
  {
    var l := LocalMs(off, t - 1);
    var q := l / DayMs;
    assert l == q * DayMs + l % DayMs;
    assert StartOfDay(off, day) < t <==> day * DayMs <= l;
    if day <= q {
      assert day * DayMs <= q * DayMs;
    } else {
      assert day * DayMs >= (q + 1) * DayMs;
    }
  }

  /** A timed event is listed on exactly the local days from the day of its start
      through the day of its last millisecond, except that an event starting in the
      final millisecond of a day is not listed on that day; an event ending before
      it starts is listed nowhere. */
  lemma TimedListedIff(off: int, e: Event, day: int)
    requires e.start.Truthy() && e.end.Truthy() && e.startUtc.Present? && e.endUtc.Present?
    ensures var s := e.startUtc.value;
            var t := e.endUtc.value;
            ListedOn(off, e, day) <==>
              s <= t && LocalDay(off, s) <= day <= LocalDay(off, t - 1)
              && !(day == LocalDay(off, s) && MsOfDay(off, s) == DayMs - 1)
  {
    BeforeDayEnd(off, e.startUtc.value, day);
    AfterDayStart(off, e.endUtc.value, day);
  }

  /** A timed event that starts before its end and not in the last millisecond of a
      day is listed on the day it starts. */
  lemma TimedListedOnStartDay(off: int, e: Event)
    requires e.start.Truthy() && e.end.Truthy() && e.startUtc.Present? && e.endUtc.Present?
    requires e.startUtc.value < e.endUtc.value && MsOfDay(off, e.startUtc.value) < DayMs - 1
    ensures ListedOn(off, e, LocalDay(off, e.startUtc.value))
  {
    var s := e.startUtc.value;
    TimedListedIff(off, e, LocalDay(off, s));
    LocalDayMonotone(off, s, e.endUtc.value - 1);
  }

  // ---- the edit dialog ----

  /** A minute of the day, what an `HH:mm` time input holds. */
  type Minute = m: int | 0 <= m < MinutesPerDay

  /** The dialog's inputs. The date inputs hold a civil day or nothing, the time
      inputs a minute of the day or nothing; a zone select that is absent or empty
      is `None`. The name and location are the raw texts before trimming. */
  datatype Form = Form(
    name: string,
    description: string,
    location: string,
    color: string,
    allDay: bool,
    startDate: Option<int>,
    endDate: Option<int>,
    startTime: Option<Minute>,
    endTime: Option<Minute>,
    startZone: Option<string>,
    endZone: Option<string>)

  /** Why the dialog refuses to save: no name, no start date, an all-day end before
      its start, a start or end that luxon cannot build (an unknown zone), and a
      timed start not before its end. */
  datatype SaveError = NameMissing | StartDateMissing | AllDayEndBeforeStart
                     | StartInvalid | EndInvalid | StartNotBeforeEnd

  /** The zone the dialog uses: the selected one, else the browser's. */
  function StartZone(env: Env, f: Form): string {
    OrElse(f.startZone, env.local)
  }

  function EndZone(env: Env, f: Form): string {
    OrElse(f.endZone, env.local)
  }

  /** The end date typed, else the start date. */
  function TypedEndDate(f: Form): int
    requires f.startDate.Some?
  {
    f.endDate.GetOr(f.startDate.value)
  }

  /** The start minute: the typed time, else midnight ("00:00"). */
  function StartMinute(f: Form): Minute {
    f.startTime.GetOr(0)
  }

  /** Whether the end is replaced by start + 1 hour: no end time was typed, or the
      end time is not after the start time on the same date. */
  predicate DefaultsEnd(f: Form)
    requires f.startDate.Some?
  {
    f.endTime.None? || (f.startDate.value == TypedEndDate(f) && f.endTime.value <= StartMinute(f))
  }

  /** The end day and minute the dialog builds its end instant from: the typed ones,
      or the start plus one hour as read in the START zone (even when the end
      zone differs). */
  function EndFields(env: Env, f: Form, startOff: int): (r: (int, Minute))
    requires f.startDate.Some?
  {
    if DefaultsEnd(f) then
      var t := ToInstant(startOff, f.startDate.value, StartMinute(f)) + HourMs;
      (LocalDay(startOff, t), MinuteOfDay(startOff, t))
    else (TypedEndDate(f), f.endTime.value)
  }

  /** The timed check at the end of the dialog passes: the start instant, built in
      the start zone, is before the end instant, built in the end zone. */
  predicate StartBeforeEnd(env: Env, f: Form)
    requires f.startDate.Some? && env.Offset(StartZone(env, f)).Some? && env.Offset(EndZone(env, f)).Some?
  {
    var so := env.Offset(StartZone(env, f)).value;
    var eo := env.Offset(EndZone(env, f)).value;
    var (d, m) := EndFields(env, f, so);
    ToInstant(so, f.startDate.value, StartMinute(f)) < ToInstant(eo, d, m)
  }

  /** The dialog accepts the entry: a name and a start date, and then an all-day end
      not before its start, or two known zones with the start before the end. */
  predicate Accepted(env: Env, f: Form) {
    Trim(f.name) != "" && f.startDate.Some?
    && if f.allDay then f.startDate.value <= TypedEndDate(f)
       else env.Offset(StartZone(env, f)).Some? && env.Offset(EndZone(env, f)).Some? && StartBeforeEnd(env, f)
  }

  /** The fields every saved event takes from the dialog. */
  predicate SavedDetails(f: Form, id: string, e: Event) {
    e.id == id && e.name == Trim(f.name) && e.description == f.description
    && e.location == Trim(f.location) && e.color == f.color && e.rrule.None?
  }

  /** The event `addOrUpdateCustomEvent` builds from the dialog (with the end-day
      correction described under Findings: the stored end day is the one the end
      instant was built from). */
  function FormEntry(env: Env, f: Form, id: string): (r: Result<Event, SaveError>)
    ensures r == Failure(NameMissing) <==> Trim(f.name) == ""
    ensures r == Failure(StartDateMissing) <==> Trim(f.name) != "" && f.startDate.None?
    ensures r == Failure(AllDayEndBeforeStart) <==>
              Trim(f.name) != "" && f.startDate.Some? && f.allDay && f.startDate.value > TypedEndDate(f)
    ensures r == Failure(StartInvalid) <==>
              Trim(f.name) != "" && f.startDate.Some? && !f.allDay && env.Offset(StartZone(env, f)).None?
    ensures r == Failure(EndInvalid) <==>
              Trim(f.name) != "" && f.startDate.Some? && !f.allDay
              && env.Offset(StartZone(env, f)).Some? && env.Offset(EndZone(env, f)).None?
    ensures r == Failure(StartNotBeforeEnd) <==>
              Trim(f.name) != "" && f.startDate.Some? && !f.allDay
              && env.Offset(StartZone(env, f)).Some? && env.Offset(EndZone(env, f)).Some? && !StartBeforeEnd(env, f)
    ensures r.Success? <==> Accepted(env, f)
    ensures r.Success? ==> SavedDetails(f, id, r.value)
    ensures r.Success? && f.allDay ==>
              var e := r.value;
              e.start == Present(f.startDate.value) && e.end == Present(TypedEndDate(f))
              && e.start.value <= e.end.value
              && e.time.None? && e.endTime.None? && e.startTimezone.None? && e.endTimezone.None?
              && e.startUtc.Missing? && e.endUtc.Missing?
    ensures r.Success? && !f.allDay ==>
              var e := r.value;
              e.startUtc.Present? && e.endUtc.Present? && e.startUtc.value < e.endUtc.value
              && StartReads(env, e, StartZone(env, f), e.startUtc.value)
              && EndReads(env, e, EndZone(env, f), e.endUtc.value)
  {
    var name := Trim(f.name);
    if name == "" then Failure(NameMissing)
    else if f.startDate.None? then Failure(StartDateMissing)
    else
      var startDay := f.startDate.value;
      var endDay := TypedEndDate(f);
      var base := Event(id, name, f.description, Trim(f.location), f.color,
                        Present(startDay), Present(endDay), None, None, None, None, Missing, Missing, None);
      if f.allDay then
        if startDay > endDay then Failure(AllDayEndBeforeStart) else Success(base)
      else
        var sz := StartZone(env, f);
        var ez := EndZone(env, f);
        var startMinute := StartMinute(f);
        match env.Offset(sz)
        case None => Failure(StartInvalid)
        case Some(so) =>
          var (endDay', endMinute) := EndFields(env, f, so);
          match (AtClock(env, sz, startDay, startMinute), AtClock(env, ez, endDay', endMinute))
          case (Some(s), Some(t)) =>
            if s >= t then Failure(StartNotBeforeEnd)
            else
              ClockOfFormat(startMinute);
              ClockOfFormat(endMinute);
              Success(base.(end := Present(endDay'),
                            time := Some(FormatHHmm(startMinute)), endTime := Some(FormatHHmm(endMinute)),
                            startTimezone := Some(sz), endTimezone := Some(ez),
                            startUtc := Present(s), endUtc := Present(t)))
          case (None, _) => assert false; Failure(StartInvalid)
          case (_, None) => Failure(EndInvalid)
  }

  /** Every event the dialog saves is one the renderer draws, timed or all-day as
      the dialog's box said. */
  lemma SavedEventResolves(env: Env, f: Form, id: string)
    requires env.Valid() && FormEntryAsWritten(env, f, id).Success?
    ensures var r := Resolve(env, FormEntryAsWritten(env, f, id).value);
            r.Some? && (r.value.allDay <==> f.allDay)
    ensures var r := Resolve(env, FormEntry(env, f, id).value);
            r.Some? && (r.value.allDay <==> f.allDay)
  {
  }

  /** Reading a minute-aligned instant's local day and minute and building the
      instant from them again gives the instant back. */
  lemma MinuteAlignedRoundTrip(off: int, k: int)
    ensures ToInstant(off, LocalDay(off, k * MinuteMs - off * MinuteMs), MinuteOfDay(off, k * MinuteMs - off * MinuteMs))
            == k * MinuteMs - off * MinuteMs
  {
    var x := k * MinuteMs - off * MinuteMs;
    var l := LocalMs(off, x);
    assert l == k * MinuteMs;
    var q := l / DayMs;
    var m := l % DayMs;
    assert l == q * DayMs + m;
    assert m == (k - q * MinutesPerDay) * MinuteMs;
    assert m / MinuteMs == k - q * MinutesPerDay;
  }

  /** With no end time typed and one zone for both ends, a saved timed event lasts
      exactly one hour. */
  lemma OneHourByDefault(env: Env, f: Form, id: string)
    requires Trim(f.name) != "" && f.startDate.Some? && !f.allDay && f.endTime.None?
    requires env.Offset(StartZone(env, f)).Some? && EndZone(env, f) == StartZone(env, f)
    ensures var r := FormEntry(env, f, id);
            r.Success? && r.value.endUtc.value == r.value.startUtc.value + HourMs
  {
    var so := env.Offset(StartZone(env, f)).value;
    var d := f.startDate.value;
    var m := StartMinute(f);
    var s := ToInstant(so, d, m);
    assert s + HourMs == (d * MinutesPerDay + m + 60) * MinuteMs - so * MinuteMs;
    MinuteAlignedRoundTrip(so, d * MinutesPerDay + m + 60);
  }

  /** A typed end that is after the start (a later date, or a later time on the same
      date) is kept: the end instant is that wall-clock time in the end zone. */
  lemma TypedEndKept(env: Env, f: Form, id: string)
    requires f.startDate.Some? && !f.allDay && !DefaultsEnd(f)
    requires FormEntry(env, f, id).Success?
    ensures var e := FormEntry(env, f, id).value;
            e.end == Present(TypedEndDate(f))
            && AtClock(env, EndZone(env, f), TypedEndDate(f), f.endTime.value) == Some(e.endUtc.value)
  {
  }

  /** The event `addOrUpdateCustomEvent` stores, as written: it refuses exactly what
      the corrected entry refuses, and stores the end date typed (or the start date)
      even when the end instant was moved to start + 1 hour. */
  function FormEntryAsWritten(env: Env, f: Form, id: string): (r: Result<Event, SaveError>)
    ensures r.Failure? <==> FormEntry(env, f, id).Failure?
    ensures r.Failure? ==> r.error == FormEntry(env, f, id).error
    ensures r == Failure(StartNotBeforeEnd) <==>
              Trim(f.name) != "" && f.startDate.Some? && !f.allDay
              && env.Offset(StartZone(env, f)).Some? && env.Offset(EndZone(env, f)).Some? && !StartBeforeEnd(env, f)
    ensures r.Success? <==> Accepted(env, f)
    ensures r.Success? ==> f.startDate.Some? && SavedDetails(f, id, r.value)
    ensures r.Success? ==> r.value.start == Present(f.startDate.value) && r.value.end == Present(TypedEndDate(f))
    ensures r.Success? && f.allDay ==>
              var e := r.value;
              e.start.value <= e.end.value
              && e.time.None? && e.endTime.None? && e.startTimezone.None? && e.endTimezone.None?
              && e.startUtc.Missing? && e.endUtc.Missing?
    ensures r.Success? && !f.allDay ==>
              var e := r.value;
              e.startUtc.Present? && e.endUtc.Present? && e.startUtc.value < e.endUtc.value
              && StartReads(env, e, StartZone(env, f), e.startUtc.value)
              && e.endTimezone == Some(EndZone(env, f)) && env.Offset(EndZone(env, f)).Some?
              && e.endTime.Some?
              && ClockOf(e.endTime.value) == Some(MinuteOfDay(env.Offset(EndZone(env, f)).value, e.endUtc.value))
  {
    match FormEntry(env, f, id)
    case Success(e) => Success(e.(end := Present(TypedEndDate(f))))
    case Failure(err) => Failure(err)
  }

  /** A start at 23:30 with no end time: the end instant is 00:30 the next day, but
      the record as written still says the end day is the start day, so its end
      texts no longer read what its end instant is. */
  lemma AsWrittenEndDayIsStale()
    ensures var env := Env(map["UTC" := 0], "UTC");
            var f := Form("Party", "", "", "#3b82f6", false, Some(738000), None, Some(23 * 60 + 30), None, None, None);
            var e := FormEntryAsWritten(env, f, "x").value;
            FormEntryAsWritten(env, f, "x").Success?
            && e.end == Present(738000) && LocalDay(0, e.endUtc.value) == 738001
            && !EndReads(env, e, "UTC", e.endUtc.value)
  {
    var env := Env(map["UTC" := 0], "UTC");
    var f := Form("Party", "", "", "#3b82f6", false, Some(738000), None, Some(23 * 60 + 30), None, None, None);
    assert Trim(f.name) == "Party" by {
      assert LeadingSpaces(f.name) == 0;
      assert TrailingSpaces(f.name) == 0;
    }
    PartyEntry(env, f);
    LocalOfInstant(0, 738001, 30);
  }

  /** The corrected entry of a form starting at 23:30 with no end time, in one zone
      at UTC, ends at 00:30 on the next day. */
  lemma PartyEntry(env: Env, f: Form)
    requires env.Offset(env.local) == Some(0)
    requires Trim(f.name) != "" && !f.allDay && f.startDate == Some(738000) && f.startTime == Some(23 * 60 + 30)
    requires f.endTime.None? && f.startZone.None? && f.endZone.None?
    ensures FormEntry(env, f, "x").Success? && FormEntry(env, f, "x").value.endUtc == Present(ToInstant(0, 738001, 30))
  {
    OneHourByDefault(env, f, "x");
    assert FormEntry(env, f, "x").value.startUtc.value == ToInstant(0, 738000, 23 * 60 + 30);
  }

  /** The stored entry is the corrected one exactly when the end day the end instant
      was built from is the end date typed: always for an all-day event and for a
      typed end after the start. */
  lemma AsWrittenIsCorrectedIff(env: Env, f: Form, id: string)
    ensures FormEntryAsWritten(env, f, id) == FormEntry(env, f, id) <==>
              FormEntry(env, f, id).Failure? || FormEntry(env, f, id).value.end == Present(TypedEndDate(f))
    ensures f.allDay || (f.startDate.Some? && !DefaultsEnd(f)) ==> FormEntryAsWritten(env, f, id) == FormEntry(env, f, id)
  {
  }

  // ---- saving into the list ----

  /** An edit is in progress: `editingEventId` is set and not empty. */
  predicate Editing(editing: Option<string>) {
    editing.Some? && editing.value != ""
  }

  /** Writing the saved event into the list: while editing, over the first event with
      the edited id, or at the end when there is none; otherwise at the end. */
  function Upsert(events: seq<Event>, editing: Option<string>, entry: Event): (r: seq<Event>)
    ensures !Editing(editing) ==> r == events + [entry]
    ensures Editing(editing) && FirstWithId(events, editing.value).None? ==> r == events + [entry]
    ensures Editing(editing) && FirstWithId(events, editing.value).Some? ==>
              var i := FirstWithId(events, editing.value).value;
              |r| == |events| && r[i] == entry && forall k | 0 <= k < |r| && k != i :: r[k] == events[k]
  {
    if Editing(editing) then
      match FirstWithId(events, editing.value)
      case Some(i) => events[i := entry]
      case None => events + [entry]
    else events + [entry]
  }

  /** Saving an edit writes the list exactly as merging an imported event with the
      same id does. */
  lemma UpsertIsImportMerge(events: seq<Event>, editing: Option<string>, entry: Event)
    requires Editing(editing) && entry.id == editing.value
    ensures Upsert(events, editing, entry) == IcsImport.MergeOne(events, entry)
  {
  }

  /** `addOrUpdateCustomEvent`: the new list, or why nothing was saved. The event
      keeps the edited id, or takes `freshId` (the clock-and-random id) for a new one. */
  function SaveForm(env: Env, events: seq<Event>, f: Form, editing: Option<string>, freshId: string): (r: Result<seq<Event>, SaveError>)
    ensures r.Failure? <==> FormEntry(env, f, OrElse(editing, freshId)).Failure?
    ensures r.Failure? ==> r.error == FormEntry(env, f, OrElse(editing, freshId)).error
    ensures r.Success? ==> |events| <= |r.value| <= |events| + 1
  {
    match FormEntryAsWritten(env, f, OrElse(editing, freshId))
    case Success(e) => Success(Upsert(events, editing, e))
    case Failure(err) => Failure(err)
  }

  /** After a save the saved event is the one found by its id: the edited id, or a
      fresh id no stored event had. */
  lemma SavedEventFound(env: Env, events: seq<Event>, f: Form, editing: Option<string>, freshId: string)
    requires SaveForm(env, events, f, editing, freshId).Success?
    requires !Editing(editing) ==> freshId != "" && FirstWithId(events, freshId).None?
    ensures var r := SaveForm(env, events, f, editing, freshId).value;
            var id := OrElse(editing, freshId);
            FirstWithId(r, id).Some? && r[FirstWithId(r, id).value] == FormEntryAsWritten(env, f, id).value
  {
    var id := OrElse(editing, freshId);
    var e := FormEntryAsWritten(env, f, id).value;
    var r := SaveForm(env, events, f, editing, freshId).value;
    if Editing(editing) {
      UpsertIsImportMerge(events, editing, e);
    } else {
      assert r == events + [e];
      FirstWithIdAt(r, id, |events|);
    }
  }

  // ---- deleting ----

  /** `deleteEvent`: once confirmed while editing, every event with the edited id
      is removed; otherwise the list stays as it is. */
  function Delete(events: seq<Event>, editing: Option<string>, confirmed: bool): (r: seq<Event>)
    ensures Editing(editing) && confirmed ==>
              forall e :: e in r <==> e in events && e.id != editing.value
    ensures !(Editing(editing) && confirmed) ==> r == events
  {
    if Editing(editing) && confirmed then Keep(events, (e: Event) => e.id != editing.value) else events
  }

  /** Deleting keeps the remaining events in their stored order. */
  lemma DeleteAppend(a: seq<Event>, b: seq<Event>, editing: Option<string>, confirmed: bool)
    ensures Delete(a + b, editing, confirmed) == Delete(a, editing, confirmed) + Delete(b, editing, confirmed)
  {
    if Editing(editing) && confirmed {
      KeepAppend(a, b, (e: Event) => e.id != editing.value);
    }
  }

  /** Deleting twice removes nothing more. */
  lemma DeleteTwice(events: seq<Event>, editing: Option<string>)
    ensures Delete(Delete(events, editing, true), editing, true) == Delete(events, editing, true)
  {
    if Editing(editing) {
      KeepTwice(events, (e: Event) => e.id != editing.value);
    }
  }

  /** Deleting an event that was just saved as new restores the list from before. */
  lemma DeleteUndoesNewSave(env: Env, events: seq<Event>, f: Form, freshId: string)
    requires SaveForm(env, events, f, None, freshId).Success?
    requires freshId != "" && forall k :: 0 <= k < |events| ==> events[k].id != freshId
    ensures Delete(SaveForm(env, events, f, None, freshId).value, Some(freshId), true) == events
  {
    var e := FormEntryAsWritten(env, f, freshId).value;
    var p := (x: Event) => x.id != freshId;
    KeepAppend(events, [e], p);
    KeepAll(events, p);
    KeepSingle(e, p);
  }

  /** Saving an edit and then deleting the event leaves what deleting it at once would. */
  lemma DeleteAfterEdit(env: Env, events: seq<Event>, f: Form, editing: Option<string>, freshId: string)
    requires Editing(editing) && SaveForm(env, events, f, editing, freshId).Success?
    ensures Delete(SaveForm(env, events, f, editing, freshId).value, editing, true) == Delete(events, editing, true)
  {
    var e := FormEntryAsWritten(env, f, editing.value).value;
    assert SaveForm(env, events, f, editing, freshId).value == Upsert(events, editing, e);
    DeleteAfterUpsert(events, editing, e);
  }

  /** Writing an event with the edited id and then deleting that id leaves what
      deleting it at once would. */
  lemma DeleteAfterUpsert(events: seq<Event>, editing: Option<string>, e: Event)
    requires Editing(editing) && e.id == editing.value
    ensures Delete(Upsert(events, editing, e), editing, true) == Delete(events, editing, true)
  {
    var id := editing.value;
    var p := (x: Event) => x.id != id;
    KeepSingle(e, p);
    match FirstWithId(events, id)
    case None =>
      KeepAppend(events, [e], p);
    case Some(i) =>
      var r := events[i := e];
      assert events == events[..i] + [events[i]] + events[i + 1..];
      assert r == events[..i] + [e] + events[i + 1..];
      KeepSingle(events[i], p);
      KeepAppend(events[..i] + [events[i]], events[i + 1..], p);
      KeepAppend(events[..i], [events[i]], p);
      KeepAppend(events[..i] + [e], events[i + 1..], p);
      KeepAppend(events[..i], [e], p);
  }
}
