/** Writing events to an iCalendar file (`exportEvents`): every event with a start
    and an end becomes a VEVENT of content lines, and what the export writes the
    import reads back. */
module IcsExport {
  import opened Wrappers
  import opened Civil
  import opened Text
  import opened Events
  import opened EventEdits
  import opened IcsEscape
  import opened IcsDateTime
  import opened IcsImport

  /** One content line of an exported VEVENT: a property with its parameters and
      value, or a bare line that has no value. */
  datatype Line = Prop(key: string, params: string, value: string) | Bare(text: string)

  function Render(l: Line): string {
    match l
    case Prop(key, params, value) => key + params + ":" + value
    case Bare(text) => text
  }

  function RenderAll(ls: seq<Line>): (r: seq<string>)
    ensures |r| == |ls| && forall i | 0 <= i < |ls| :: r[i] == Render(ls[i])
  {
    seq(|ls|, i requires 0 <= i < |ls| => Render(ls[i]))
  }

  /** The lines before the first VEVENT. */
  const Header: seq<string> :=
    ["BEGIN:VCALENDAR", "VERSION:2.0", "PRODID:-//GermanYearPlanner//DE v1.0//EN", "CALSCALE:GREGORIAN"]

  /** The zone written as TZID: a non-empty zone other than "UTC" that luxon knows. */
  function ExportTzid(env: Env, zone: Option<string>): (tz: Option<string>)
    ensures tz.Some? <==> zone.Some? && zone.value != "" && zone.value != "UTC" && env.Offset(zone.value).Some?
    ensures tz.Some? ==> tz == zone
  {
    if zone.Some? && zone.value != "" && zone.value != "UTC" && env.Offset(zone.value).Some? then zone else None
  }

  /** `fromISO(x, { zone: "utc" })` of a stored instant: invalid unless it parses. */
  function UtcValue(f: Field<int>): (dt: Option<Seen>)
    ensures dt.Some? <==> f.Present?
    ensures dt.Some? ==> dt.value.ms == f.value
  {
    if f.Present? then Some(Seen(f.value, 0)) else None
  }

  /** `fromISO(day)` in the browser's zone, `days` days later: that day's local midnight. */
  function DayValue(env: Env, f: Field<int>, days: int): (dt: Option<Seen>)
    requires env.Valid()
    ensures dt.Some? <==> f.Present?
    ensures dt.Some? ==> LocalDay(dt.value.offset, dt.value.ms) == f.value + days
  {
    if f.Present? then
      LocalOfInstant(env.LocalOffset(), f.value + days, 0);
      Some(Seen(ToInstant(env.LocalOffset(), f.value + days, 0), env.LocalOffset()))
    else None
  }

  /** A timed DTSTART or DTEND: the zone as TZID where it can be written, and the
      instant in that zone, or in UTC with a 'Z'. */
  function TimedLine(env: Env, key: string, f: Field<int>, zone: Option<string>): (l: Line)
    requires env.Valid()
    ensures var tz := ExportTzid(env, zone);
            Render(l) == key + (if tz.Some? then ";TZID=" + tz.value else "") + ":"
                         + FormatIcsDateTime(env, UtcValue(f), false, tz)
  {
    var tz := ExportTzid(env, zone);
    Prop(key, if tz.Some? then ";TZID=" + tz.value else "", FormatIcsDateTime(env, UtcValue(f), false, tz))
  }

  /** An all-day DTSTART or DTEND of a day: the key, `;VALUE=DATE` and the date. */
  function AllDayLine(key: string, day: int): Line {
    Prop(key, ";" + DateParam, Ymd(FromDays(day)))
  }

  /** The all-day DTSTART carries `formatIcsDateTime` of the local midnight of the
      start day, which is empty when the stored day does not read. */
  lemma AllDayStartFormat(env: Env, e: Event)
    requires env.Valid() && !TimedExport(e)
    ensures Render(StartLine(env, e)) == "DTSTART" + ";" + FormatIcsDateTime(env, DayValue(env, e.start, 0), true, None)
  {
    if e.start.Present? {
      AllDayStartLine(env, e);
      DateRender(env, "DTSTART", e.start.value, DayValue(env, e.start, 0).value);
    }
  }

  /** The all-day DTEND carries `formatIcsDateTime` of the local midnight of the day
      after the end day. */
  lemma AllDayEndFormat(env: Env, e: Event)
    requires env.Valid() && !TimedExport(e)
    ensures Render(EndLine(env, e)) == "DTEND" + ";" + FormatIcsDateTime(env, DayValue(env, e.end, 1), true, None)
  {
    if e.end.Present? {
      AllDayEndLine(env, e);
      DateRender(env, "DTEND", e.end.value + 1, DayValue(env, e.end, 1).value);
    }
  }


  /** How an all-day date line renders. */
  lemma DateRender(env: Env, key: string, day: int, dt: Seen)
    requires LocalDay(dt.offset, dt.ms) == day
    ensures Render(Prop(key, ";" + DateParam, Ymd(FromDays(day))))
            == key + ";" + FormatIcsDateTime(env, Some(dt), true, None)
  {
    var v := Ymd(FromDays(day));
    assert FormatIcsDateTime(env, Some(dt), true, None) == DateParam + ":" + v;
    assert key + (";" + DateParam) + ":" + v == key + ";" + (DateParam + ":" + v);
  }

  /** The DTSTAMP value: the export time in UTC. */
  function DtStamp(now: int): string {
    StampText(0, now) + "Z"
  }

  /** A property written only when it has a value. */
  function Optional(key: string, value: Option<string>): (ls: seq<Line>)
    ensures |ls| <= 1
  {
    if value.Some? then [Prop(key, "", value.value)] else []
  }

  /** The lines of a VEVENT before `END:VEVENT`, in the order they are written. */
  function VeventLines(id: string, stamp: string, summary: string, description: Option<string>,
                       color: Option<string>, location: Option<string>, rrule: Option<string>,
                       dates: seq<Line>): (ls: seq<Line>)
    ensures |ls| >= 4 + |dates| && ls[0] == BeginLine
  {
    [BeginLine, Prop("UID", "", id), Prop("DTSTAMP", "", stamp), Prop("SUMMARY", "", summary)]
    + Optional("DESCRIPTION", description) + Optional("X-APPLE-CALENDAR-COLOR", color)
    + Optional("LOCATION", location) + Optional("RRULE", rrule) + dates
  }

  /** A text field's value, escaped, where it is not empty. */
  function EscapedIfAny(field: string): Option<string> {
    if field != "" then Some(EscapeIcsField(Some(field))) else None
  }

  /** The properties of an event's VEVENT. `freshId` stands for the time-and-random
      UID written for an event without an id. */
  function EventLines(env: Env, e: Event, now: int, freshId: string): (ls: seq<Line>)
    requires env.Valid()
    ensures |ls| >= 6
  {
    VeventLines(if e.id != "" then e.id else freshId, DtStamp(now), EscapeIcsField(Some(e.name)),
                EscapedIfAny(e.description), if e.color != "" then Some(e.color) else None,
                EscapedIfAny(e.location), if e.rrule.Some? && e.rrule.value != "" then e.rrule else None,
                [StartLine(env, e), EndLine(env, e)])
  }

  /** An event written with timed DTSTART and DTEND: both instants are set. */
  predicate TimedExport(e: Event) {
    e.startUtc.Truthy() && e.endUtc.Truthy()
  }

  /** The DTSTART line: timed or all-day as `TimedExport` says. */
  function StartLine(env: Env, e: Event): Line
    requires env.Valid()
  {
    if TimedExport(e) then TimedLine(env, "DTSTART", e.startUtc, e.startTimezone)
    else if e.start.Present? then AllDayLine("DTSTART", e.start.value)
    else Bare("DTSTART;")
  }

  /** The DTEND line; an all-day end is written as the day after, the exclusive end
      of section 3.6.1 of RFC 5545. */
  function EndLine(env: Env, e: Event): Line
    requires env.Valid()
  {
    if TimedExport(e) then TimedLine(env, "DTEND", e.endUtc, e.endTimezone)
    else if e.end.Present? then AllDayLine("DTEND", e.end.value + 1)
    else Bare("DTEND;")
  }


  /** The VEVENT of one event; None where the event lacks a start or an end and is
      skipped. */
  function ExportEvent(env: Env, e: Event, now: int, freshId: string): (r: Option<seq<string>>)
    requires env.Valid()
    ensures r.Some? <==> e.start.Truthy() && e.end.Truthy()
    ensures r.Some? ==> |r.value| >= 7 && r.value[0] == "BEGIN:VEVENT" && r.value[|r.value| - 1] == "END:VEVENT"
  {
    if !(e.start.Truthy() && e.end.Truthy()) then None
    else
      var block := RenderAll(EventLines(env, e, now, freshId)) + ["END:VEVENT"];
      BeginRendered();
      Some(block)
  }

  /** The VEVENTs of the events from `i` on, one after the other. */
  function Blocks(env: Env, events: seq<Event>, now: int, freshIds: nat -> string, i: nat): (r: seq<string>)
    requires env.Valid()
    ensures |r| >= 7 * |Exportable(events)|
    decreases |events|
  {
    if events == [] then []
    else
      var block := match ExportEvent(env, events[0], now, freshIds(i)) case None => [] case Some(b) => b;
      assert Exportable(events) == (if events[0].start.Truthy() && events[0].end.Truthy() then [events[0]] else [])
                                   + Exportable(events[1..]);
      block + Blocks(env, events[1..], now, freshIds, i + 1)
  }

  /** The events the export writes. */
  function Exportable(events: seq<Event>): seq<Event> {
    if events == [] then []
    else (if events[0].start.Truthy() && events[0].end.Truthy() then [events[0]] else []) + Exportable(events[1..])
  }

  /** The calendar file's lines; None for an empty list, where nothing is written. */
  function ExportCalendar(env: Env, events: seq<Event>, now: int, freshIds: nat -> string): (r: Option<seq<string>>)
    requires env.Valid()
    ensures r.None? <==> events == []
    ensures r.Some? ==> |r.value| == |Header| + |Blocks(env, events, now, freshIds, 0)| + 1
    ensures r.Some? ==> r.value[..|Header|] == Header && r.value[|r.value| - 1] == "END:VCALENDAR"
  {
    if events == [] then None
    else
      var lines := Header + Blocks(env, events, now, freshIds, 0) + ["END:VCALENDAR"];
      assert lines[..|Header|] == Header;
      Some(lines)
  }

  // ---- what the import reads from written lines ----

  /** A property name as the export writes it: not empty, no ':' or ';', nothing to
      upper-case. */
  predicate KeyName(key: string) {
    key != [] && key[0] != ' ' && key[0] != '\t'
    && forall i | 0 <= i < |key| :: key[i] != ':' && key[i] != ';' && !('a' <= key[i] <= 'z')
  }

  /** A line the scan reads as it was written: a property whose parameters start with
      ';' and hold no ':', or a bare line without ':'; neither an alarm marker nor a
      folded continuation. */
  predicate Readable(l: Line) {
    ContentStart(Render(l)) && !AlarmBegin(Render(l)) && !AlarmEnd(Render(l))
    && match l
       case Prop(key, params, _) => KeyName(key) && (params == [] || (params[0] == ';' && ':' !in params))
       case Bare(text) => ':' !in text
  }

  /** The property a line sets, if the event takes it. */
  function Sets1(l: Line): Option<(string, string)> {
    match l
    case Bare(_) => None
    case Prop(key, _, value) =>
      if key in Recognized then Some((key, if key == "DTSTART" || key == "DTEND" then Render(l) else value)) else None
  }

  function PropsAfter(m: map<string, string>, ls: seq<Line>): map<string, string>
    decreases |ls|
  {
    if ls == [] then m
    else
      var before := PropsAfter(m, ls[..|ls| - 1]);
      match Sets1(ls[|ls| - 1])
      case None => before
      case Some((k, v)) => before[k := v]
  }

  lemma UpperOfKey(key: string)
    requires KeyName(key)
    ensures Upper(key) == key
  {
  }

  lemma PropNameOfWritten(key: string, params: string, value: string)
    requires KeyName(key) && (params == [] || (params[0] == ';' && ':' !in params))
    ensures PropName(key + params + ":" + value) == key
    ensures Find(key + params + ":" + value, ':') == Some(|key + params|)
  {
    var line := key + params + ":" + value;
    var head := key + params;
    assert ':' !in head by {
      forall i | 0 <= i < |head| ensures head[i] != ':' {
        if i >= |key| {
          assert head[i] == params[i - |key|];
        }
      }
    }
    assert line == head + (":" + value);
    FindAfter(head, ":" + value, ':');
    assert line[..|head|] == head;
    HeadName(key, params);
  }

  lemma HeadName(key: string, params: string)
    requires KeyName(key) && (params == [] || params[0] == ';')
    ensures Upper(Split(key + params, ';')[0]) == key
  {
    UpperOfKey(key);
    assert ';' !in key;
    if params == [] {
      assert key + params == key;
    } else {
      FindAfter(key, params, ';');
      assert (key + params)[..|key|] == key;
    }
  }

  /** A readable line updates the scan exactly as `Sets1` says. */
  lemma ScanReadsLine(sc: Scanned, l: Line)
    requires !sc.inAlarm && Readable(l)
    ensures ScanLine(sc, Render(l)) == match Sets1(l)
                                       case None => sc
                                       case Some((k, v)) => sc.(props := sc.props[k := v])
  {
    match l
    case Bare(text) =>
    case Prop(key, params, value) =>
      PropNameOfWritten(key, params, value);
      var line := key + params + ":" + value;
      assert line[|key + params| + 1..] == value;
  }

  lemma ScanSnoc(lines: seq<string>, line: string)
    ensures Scan(lines + [line]) == ScanLine(Scan(lines), line)
  {
    assert (lines + [line])[..|lines|] == lines;
  }

  lemma RenderAllSnoc(ls: seq<Line>, l: Line)
    ensures RenderAll(ls + [l]) == RenderAll(ls) + [Render(l)]
  {
  }

  lemma {:induction false} ScanReadsLines(pre: seq<string>, ls: seq<Line>)
    requires !Scan(pre).inAlarm && forall i | 0 <= i < |ls| :: Readable(ls[i])
    ensures Scan(pre + RenderAll(ls)) == Scanned(PropsAfter(Scan(pre).props, ls), false)
    decreases |ls|
  {
    if ls == [] {
      assert pre + RenderAll(ls) == pre;
    } else {
      var n := |ls| - 1;
      ScanReadsLines(pre, ls[..n]);
      var before := pre + RenderAll(ls[..n]);
      RenderAllSnoc(ls[..n], ls[n]);
      assert ls == ls[..n] + [ls[n]];
      assert pre + (RenderAll(ls[..n]) + [Render(ls[n])]) == before + [Render(ls[n])];
      var sc := Scan(before);
      ScanSnoc(before, Render(ls[n]));
      ScanReadsLine(sc, ls[n]);
      assert PropsAfter(Scan(pre).props, ls) == match Sets1(ls[n])
                                                case None => sc.props
                                                case Some((k, v)) => sc.props[k := v];
    }
  }

  lemma {:induction false} PropsAfterConcat(m: map<string, string>, a: seq<Line>, b: seq<Line>)
    ensures PropsAfter(m, a + b) == PropsAfter(PropsAfter(m, a), b)
    decreases |b|
  {
    if b == [] {
      assert a + b == a;
    } else {
      var n := |b| - 1;
      assert (a + b)[..|a + b| - 1] == a + b[..n];
      PropsAfterConcat(m, a, b[..n]);
    }
  }

  // ---- round trip ----

  /** The offset a timed value is written in: its TZID's, or UTC. */
  function WrittenOffset(env: Env, tz: Option<string>): int {
    if tz.Some? && tz.value in env.zones then env.zones[tz.value] else 0
  }

  /** What the written text can carry: an id without backslashes, zone names a TZID
      can stand for, and years of four digits (`yyyy` of a later year is longer). */
  predicate Writable(env: Env, e: Event)
    requires env.Valid()
  {
    e.id != "" && '\\' !in e.id
    && if e.startUtc.Truthy() then
         var sz := ExportTzid(env, e.startTimezone);
         var ez := ExportTzid(env, e.endTimezone);
         (sz.Some? ==> TzidName(sz.value)) && (ez.Some? ==> TzidName(ez.value))
         && e.startUtc.Present? && e.endUtc.Present?
         && FourDigitYear(LocalDay(WrittenOffset(env, sz), e.startUtc.value))
         && FourDigitYear(LocalDay(WrittenOffset(env, ez), e.endUtc.value))
       else e.start.Present? && e.end.Present? && FourDigitYear(e.start.value) && FourDigitYear(e.end.value + 1)
  }

  /** The properties the scan keeps from a VEVENT's lines. */
  function VeventProps(id: string, summary: string, description: Option<string>, color: Option<string>,
                       location: Option<string>, rrule: Option<string>, start: string, end: string): map<string, string>
  {
    var m0 := map["UID" := id, "SUMMARY" := summary];
    var m1 := if description.Some? then m0["DESCRIPTION" := description.value] else m0;
    var m2 := if color.Some? then m1["X-APPLE-CALENDAR-COLOR" := color.value] else m1;
    var m3 := if location.Some? then m2["LOCATION" := location.value] else m2;
    var m4 := if rrule.Some? then m3["RRULE" := rrule.value] else m3;
    m4["DTSTART" := start]["DTEND" := end]
  }

  lemma NotAlarm(line: string)
    requires line != [] && line[0] != 'B' && line[0] != 'E'
    ensures !AlarmBegin(line) && !AlarmEnd(line)
  {
    assert "BEGIN:VALARM"[0] == 'B' && "END:VALARM"[0] == 'E';
  }

  lemma KeyNames()
    ensures KeyName("UID") && KeyName("DTSTAMP") && KeyName("SUMMARY") && KeyName("DESCRIPTION")
    ensures KeyName("X-APPLE-CALENDAR-COLOR") && KeyName("LOCATION") && KeyName("RRULE")
    ensures KeyName("DTSTART") && KeyName("DTEND") && KeyName("BEGIN")
  {
  }

  lemma PropReadable(key: string, params: string, value: string)
    requires KeyName(key) && key[0] != 'B' && key[0] != 'E'
    requires params == [] || (params[0] == ';' && ':' !in params)
    ensures Readable(Prop(key, params, value))
  {
    assert Render(Prop(key, params, value))[0] == key[0];
    NotAlarm(Render(Prop(key, params, value)));
  }

  lemma DateLinesReadable(env: Env, e: Event)
    requires env.Valid() && Resolve(env, e).Some? && Writable(env, e)
    ensures Readable(StartLine(env, e)) && StartLine(env, e).Prop? && StartLine(env, e).key == "DTSTART"
    ensures Readable(EndLine(env, e)) && EndLine(env, e).Prop? && EndLine(env, e).key == "DTEND"
  {
    if TimedExport(e) {
      TimedLinesReadable(env, e);
    } else {
      AllDayStartLine(env, e);
      AllDayEndLine(env, e);
      KeyNames();
      AllDayReadable("DTSTART", e.start.value);
      AllDayReadable("DTEND", e.end.value + 1);
    }
  }

  lemma TimedLinesReadable(env: Env, e: Event)
    requires env.Valid() && TimedExport(e) && Writable(env, e)
    ensures Readable(StartLine(env, e)) && StartLine(env, e).Prop? && StartLine(env, e).key == "DTSTART"
    ensures Readable(EndLine(env, e)) && EndLine(env, e).Prop? && EndLine(env, e).key == "DTEND"
  {
    KeyNames();
    TimedReadable(env, "DTSTART", e.startUtc, e.startTimezone);
    TimedReadable(env, "DTEND", e.endUtc, e.endTimezone);
  }



  lemma AllDayReadable(key: string, day: int)
    requires KeyName(key) && key[0] != 'B' && key[0] != 'E'
    ensures Readable(AllDayLine(key, day))
  {
    assert ':' !in DateParam;
    PropReadable(key, ";" + DateParam, Ymd(FromDays(day)));
  }


  lemma TimedReadable(env: Env, key: string, f: Field<int>, zone: Option<string>)
    requires env.Valid() && KeyName(key) && key[0] != 'B' && key[0] != 'E'
    requires ExportTzid(env, zone).Some? ==> TzidName(ExportTzid(env, zone).value)
    ensures TimedLine(env, key, f, zone).Prop? && TimedLine(env, key, f, zone).key == key
    ensures Readable(TimedLine(env, key, f, zone))
  {
    var tz := ExportTzid(env, zone);
    if tz.Some? {
      var params := ";TZID=" + tz.value;
      assert ':' !in params by {
        forall i | 0 <= i < |params| ensures params[i] != ':' {
          if i >= 6 {
            assert params[i] == tz.value[i - 6];
            assert !TzidStop(tz.value[i - 6]);
          }
        }
      }
      PropReadable(key, params, FormatIcsDateTime(env, UtcValue(f), false, tz));
    } else {
      PropReadable(key, "", FormatIcsDateTime(env, UtcValue(f), false, tz));
    }
  }

  lemma PropsAfterSnoc(m: map<string, string>, a: seq<Line>, x: Line)
    ensures PropsAfter(m, a + [x]) == match Sets1(x)
                                      case None => PropsAfter(m, a)
                                      case Some((k, v)) => PropsAfter(m, a)[k := v]
  {
    assert (a + [x])[..|a|] == a;
  }


  /** The first line of every VEVENT. */
  const BeginLine: Line := Prop("BEGIN", "", "VEVENT")

  lemma BeginRendered()
    ensures Render(BeginLine) == "BEGIN:VEVENT"
  {
  }

  predicate AllReadable(ls: seq<Line>) {
    forall i | 0 <= i < |ls| :: Readable(ls[i])
  }

  lemma ReadableConcat(a: seq<Line>, b: seq<Line>)
    requires AllReadable(a) && AllReadable(b)
    ensures AllReadable(a + b)
  {
    forall i | 0 <= i < |a + b| ensures Readable((a + b)[i]) {
      if i >= |a| {
        assert (a + b)[i] == b[i - |a|];
      }
    }
  }

  lemma OptionalReadable(key: string, value: Option<string>)
    requires KeyName(key) && key[0] != 'B' && key[0] != 'E'
    ensures AllReadable(Optional(key, value))
  {
    if value.Some? {
      PropReadable(key, "", value.value);
    }
  }

  lemma VeventReadable(id: string, stamp: string, summary: string, description: Option<string>,
                       color: Option<string>, location: Option<string>, rrule: Option<string>, dates: seq<Line>)
    requires AllReadable(dates)
    ensures AllReadable(VeventLines(id, stamp, summary, description, color, location, rrule, dates))
  {
    KeyNames();
    assert Readable(BeginLine) by {
      BeginRendered();
      assert "BEGIN:VEVENT"[7] != "BEGIN:VALARM"[7];
      assert "BEGIN:VEVENT"[0] != "END:VALARM"[0];
    }
    PropReadable("UID", "", id);
    PropReadable("DTSTAMP", "", stamp);
    PropReadable("SUMMARY", "", summary);
    var head := [BeginLine, Prop("UID", "", id), Prop("DTSTAMP", "", stamp), Prop("SUMMARY", "", summary)];
    assert AllReadable(head);
    OptionalReadable("DESCRIPTION", description);
    OptionalReadable("X-APPLE-CALENDAR-COLOR", color);
    OptionalReadable("LOCATION", location);
    OptionalReadable("RRULE", rrule);
    var o1 := Optional("DESCRIPTION", description);
    var o2 := Optional("X-APPLE-CALENDAR-COLOR", color);
    var o3 := Optional("LOCATION", location);
    var o4 := Optional("RRULE", rrule);
    ReadableConcat(head, o1);
    ReadableConcat(head + o1, o2);
    ReadableConcat(head + o1 + o2, o3);
    ReadableConcat(head + o1 + o2 + o3, o4);
    ReadableConcat(head + o1 + o2 + o3 + o4, dates);
  }

  lemma SetsOfKeys(v: string)
    ensures Sets1(BeginLine) == None && Sets1(Prop("DTSTAMP", "", v)) == None
    ensures Sets1(Prop("UID", "", v)) == Some(("UID", v))
    ensures Sets1(Prop("SUMMARY", "", v)) == Some(("SUMMARY", v))
    ensures Sets1(Prop("DESCRIPTION", "", v)) == Some(("DESCRIPTION", v))
    ensures Sets1(Prop("X-APPLE-CALENDAR-COLOR", "", v)) == Some(("X-APPLE-CALENDAR-COLOR", v))
    ensures Sets1(Prop("LOCATION", "", v)) == Some(("LOCATION", v))
    ensures Sets1(Prop("RRULE", "", v)) == Some(("RRULE", v))
  {
    assert "DTSTAMP"[5] != "DTSTART"[5];
  }

  lemma OptionalProps(m: map<string, string>, a: seq<Line>, key: string, value: Option<string>)
    requires key in Recognized && key != "DTSTART" && key != "DTEND"
    ensures PropsAfter(m, a + Optional(key, value))
            == if value.Some? then PropsAfter(m, a)[key := value.value] else PropsAfter(m, a)
  {
    if value.Some? {
      PropsAfterSnoc(m, a, Prop(key, "", value.value));
    } else {
      assert a + Optional(key, value) == a;
    }
  }

  /** The scan of a VEVENT's written properties keeps exactly the values written. */
  lemma VeventScan(id: string, stamp: string, summary: string, description: Option<string>,
                   color: Option<string>, location: Option<string>, rrule: Option<string>, start: Line, end: Line)
    requires start.Prop? && start.key == "DTSTART" && end.Prop? && end.key == "DTEND"
    ensures PropsAfter(map[], VeventLines(id, stamp, summary, description, color, location, rrule, [start, end]))
            == VeventProps(id, summary, description, color, location, rrule, Render(start), Render(end))
  {
    var m: map<string, string> := map[];
    SetsOfKeys(id);
    SetsOfKeys(stamp);
    SetsOfKeys(summary);
    PropsAfterSnoc(m, [], BeginLine);
    assert [] + [BeginLine] == [BeginLine];
    var h1 := [BeginLine, Prop("UID", "", id)];
    var h2 := h1 + [Prop("DTSTAMP", "", stamp)];
    var h3 := h2 + [Prop("SUMMARY", "", summary)];
    PropsAfterSnoc(m, [BeginLine], Prop("UID", "", id));
    assert [BeginLine] + [Prop("UID", "", id)] == h1;
    PropsAfterSnoc(m, h1, Prop("DTSTAMP", "", stamp));
    PropsAfterSnoc(m, h2, Prop("SUMMARY", "", summary));
    assert h3 == [BeginLine, Prop("UID", "", id), Prop("DTSTAMP", "", stamp), Prop("SUMMARY", "", summary)];
    assert PropsAfter(m, h3) == map["UID" := id, "SUMMARY" := summary];
    var o1 := Optional("DESCRIPTION", description);
    var o2 := Optional("X-APPLE-CALENDAR-COLOR", color);
    var o3 := Optional("LOCATION", location);
    var o4 := Optional("RRULE", rrule);
    OptionalProps(m, h3, "DESCRIPTION", description);
    OptionalProps(m, h3 + o1, "X-APPLE-CALENDAR-COLOR", color);
    OptionalProps(m, h3 + o1 + o2, "LOCATION", location);
    OptionalProps(m, h3 + o1 + o2 + o3, "RRULE", rrule);
    var h4 := h3 + o1 + o2 + o3 + o4;
    PropsAfterSnoc(m, h4, start);
    PropsAfterSnoc(m, h4 + [start], end);
    assert h4 + [start, end] == h4 + [start] + [end];
  }

  /** A present value that is not empty, as `x || fallback` tests it. */
  function NonEmpty(o: Option<string>): Option<string> {
    if o.Some? && o.value != "" then o else None
  }

  lemma VeventPropsLookup(id: string, summary: string, description: Option<string>, color: Option<string>,
                          location: Option<string>, rrule: Option<string>, start: string, end: string)
    ensures var p := VeventProps(id, summary, description, color, location, rrule, start, end);
            Value(p, "UID") == NonEmpty(Some(id)) && Value(p, "SUMMARY") == NonEmpty(Some(summary))
            && Value(p, "DESCRIPTION") == NonEmpty(description)
            && Value(p, "X-APPLE-CALENDAR-COLOR") == NonEmpty(color)
            && Value(p, "LOCATION") == NonEmpty(location) && Value(p, "RRULE") == NonEmpty(rrule)
            && "DTSTART" in p && p["DTSTART"] == start && "DTEND" in p && p["DTEND"] == end
  {
  }

  lemma EscapeKeepsEmptiness(s: string)
    ensures EscapeIcsField(Some(s)) == "" <==> s == ""
  {
    EscapeIsPerCharacter(s);
    if s != [] {
      assert EscapeChars(s) == EscapeChar(s[0]) + EscapeChars(s[1..]);
    }
  }

  /** An escaped optional field without a backslash unescapes to the field. */
  lemma EscapedRoundTrip(field: string)
    requires '\\' !in field
    ensures UnescapeIcsField(NonEmpty(EscapedIfAny(field))) == field
  {
    if field != "" {
      EscapeKeepsEmptiness(field);
      UnescapeInvertsEscapeWithoutBackslash(field);
    }
  }

  /** With the corrected unescaping every escaped optional field unescapes to the field. */
  lemma EscapedRoundTripFixed(field: string)
    ensures UnescapeIcsFieldFixed(NonEmpty(EscapedIfAny(field))) == field
  {
    if field != "" {
      EscapeKeepsEmptiness(field);
      UnescapeFixedInvertsEscape(Some(field));
    }
  }

  lemma PlainKeys()
    ensures PlainName("DTSTART") && PlainName("DTEND")
  {
  }

  /** A timed DTSTART or DTEND reads back as its instant to the second, with the
      TZID it was written with. */
  lemma TimedLineReads(env: Env, key: string, f: Field<int>, zone: Option<string>)
    requires env.Valid() && PlainName(key) && f.Present?
    requires ExportTzid(env, zone).Some? ==> TzidName(ExportTzid(env, zone).value)
    requires FourDigitYear(LocalDay(WrittenOffset(env, ExportTzid(env, zone)), f.value))
    ensures ParseIcsDateTimeAsWritten(env, Render(TimedLine(env, key, f, zone)))
            == Stamp(Some(TruncSecond(f.value)), false, ExportTzid(env, zone))
  {
    var tz := ExportTzid(env, zone);
    var seen := Seen(f.value, 0);
    var text := FormatIcsDateTime(env, Some(seen), false, tz);
    assert Render(TimedLine(env, key, f, zone)) == key + (if tz.Some? then ";TZID=" + tz.value else "") + ":" + text;
    if tz.Some? {
      var z := tz.value;
      assert WrittenOffset(env, tz) == env.Offset(z).value;
      assert key + (";TZID=" + z) + ":" + text == key + ";TZID=" + z + ":" + text;
      ZonedRoundTrip(env, key, z, seen);
    } else {
      assert key + "" + ":" + text == key + ":" + text;
      UtcRoundTrip(env, key, seen);
    }
  }

  /** An all-day date line reads back as the UTC midnight of its day. */
  lemma AllDayLineReads(env: Env, key: string, day: int)
    requires env.Valid() && PlainName(key) && FourDigitYear(day)
    ensures ParseIcsDateTimeAsWritten(env, Render(AllDayLine(key, day))) == Stamp(Some(day * DayMs), true, None)
  {
    var v := Ymd(FromDays(day));
    assert key + (";" + DateParam) + ":" + v == key + ";" + DateParam + ":" + v;
    DateRoundTrip(env, key, day);
  }


  /** The texts of an event hold no backslash, the only case the importer's
      unescaping reads back unchanged. */
  predicate PlainTexts(e: Event) {
    '\\' !in e.name && '\\' !in e.description && '\\' !in e.location
  }

  /** What the import makes of an exported event's texts. */
  predicate DetailsKept(r: Event, e: Event) {
    r.id == e.id && r.name == (if e.name == "" then DefaultName else e.name)
    && r.description == Trim(CutAtSeparator(e.description)) && r.location == Trim(e.location)
    && r.color == (if e.color == "" then DefaultColor else e.color) && r.rrule == NonEmpty(e.rrule)
  }

  /** What the import makes of an exported event's dates: a timed event keeps its
      instants to the second and the zones written for them; an all-day event keeps
      its days, the end never before the start. */
  predicate DatesKept(env: Env, r: Event, e: Event)
    requires env.Valid()
  {
    if e.startUtc.Truthy() then
      var zone := ExportTzid(env, e.startTimezone).GetOr(env.local);
      e.startUtc.Present? && e.endUtc.Present?
      && r.startUtc == Present(TruncSecond(e.startUtc.value)) && r.endUtc == Present(TruncSecond(e.endUtc.value))
      && r.startTimezone == Some(zone) && r.endTimezone == Some(ExportTzid(env, e.endTimezone).GetOr(zone))
    else
      e.start.Present? && e.end.Present? && !r.startUtc.Truthy()
      && r.start == e.start && r.end == Present(Max(e.start.value, e.end.value))
  }

  /** The written lines of an event before `END:VEVENT`. */
  function Written(env: Env, e: Event, now: int, freshId: string): seq<string>
    requires env.Valid() && e.start.Truthy() && e.end.Truthy()
  {
    var block := ExportEvent(env, e, now, freshId).value;
    block[..|block| - 1]
  }

  /** Readable lines are content lines, which unfolding leaves alone. */
  lemma ReadableUnfolds(ls: seq<Line>)
    requires AllReadable(ls)
    ensures Unfold(RenderAll(ls)) == RenderAll(ls)
  {
    var text := RenderAll(ls);
    forall i | 0 <= i < |text| ensures ContentStart(text[i]) {
      assert Readable(ls[i]);
    }
    UnfoldKeepsContentLines(text);
  }

  /** The properties the import reads back from the written lines of a VEVENT. */
  lemma VeventRead(id: string, stamp: string, summary: string, description: Option<string>,
                   color: Option<string>, location: Option<string>, rrule: Option<string>, start: Line, end: Line)
    requires Readable(start) && start.Prop? && start.key == "DTSTART"
    requires Readable(end) && end.Prop? && end.key == "DTEND"
    ensures var ls := VeventLines(id, stamp, summary, description, color, location, rrule, [start, end]);
            Scan(Unfold(RenderAll(ls))).props
            == VeventProps(id, summary, description, color, location, rrule, Render(start), Render(end))
  {
    var ds := [start, end];
    assert AllReadable(ds);
    var ls := VeventLines(id, stamp, summary, description, color, location, rrule, ds);
    VeventReadable(id, stamp, summary, description, color, location, rrule, ds);
    ReadableUnfolds(ls);
    ScanReadsLines([], ls);
    assert [] + RenderAll(ls) == RenderAll(ls);
    VeventScan(id, stamp, summary, description, color, location, rrule, start, end);
  }


  /** The properties written for an event with an id, its date lines rendered as
      `start` and `end`. */
  function ExportedProps(e: Event, start: string, end: string): map<string, string> {
    VeventProps(e.id, EscapeIcsField(Some(e.name)), EscapedIfAny(e.description),
                if e.color != "" then Some(e.color) else None, EscapedIfAny(e.location),
                if e.rrule.Some? && e.rrule.value != "" then e.rrule else None, start, end)
  }

  /** The texts read back from an exported event are its own, with the import's
      defaults for an empty name or color. */
  lemma DetailsRead(e: Event, start: string, end: string, freshId: string)
    requires e.id != "" && '\\' !in e.id && PlainTexts(e)
    ensures DetailsKept(Details(ExportedProps(e, start, end), freshId), e)
  {
    var summary := EscapeIcsField(Some(e.name));
    VeventPropsLookup(e.id, summary, EscapedIfAny(e.description),
                      if e.color != "" then Some(e.color) else None, EscapedIfAny(e.location),
                      if e.rrule.Some? && e.rrule.value != "" then e.rrule else None, start, end);
    UnescapePlainAsWritten(e.id);
    EscapeKeepsEmptiness(e.name);
    assert NonEmpty(Some(summary)) == NonEmpty(EscapedIfAny(e.name));
    EscapedRoundTrip(e.name);
    EscapedRoundTrip(e.description);
    EscapedRoundTrip(e.location);
  }

  lemma MidnightDay(d: int)
    ensures UtcDay(d * DayMs) == d
  {
    LocalOfInstant(0, d, 0);
    assert ToInstant(0, d, 0) == d * DayMs;
  }

  /** The import of a VEVENT with all-day DTSTART `s` and DTEND `t`: the days `s`
      through `t - 1`, the end never before the start. */
  lemma ImportAllDay(env: Env, lines: seq<string>, freshId: string, s: int, t: int)
    requires env.Valid()
    requires var p := Scan(lines).props;
             "DTSTART" in p && ParseIcsDateTimeAsWritten(env, p["DTSTART"]) == Stamp(Some(s * DayMs), true, None)
             && "DTEND" in p && ParseIcsDateTimeAsWritten(env, p["DTEND"]) == Stamp(Some(t * DayMs), true, None)
    ensures var r := ImportVevent(env, lines, freshId);
            r.Some? && SameDetails(r.value, Details(Scan(lines).props, freshId)) && !r.value.startUtc.Truthy()
            && r.value.start == Present(s) && r.value.end == Present(Max(s, t - 1))
  {
    var p := Scan(lines).props;
    AllDayDatesOfDays(Details(p, freshId), s, t);
  }

  /** The dates an all-day import takes from DTSTART day `s` and DTEND day `t`. */
  lemma AllDayDatesOfDays(e: Event, s: int, t: int)
    ensures var r := AllDayDates(e, s * DayMs, Some(Stamp(Some(t * DayMs), true, None)));
            r.start == Present(s) && r.end == Present(Max(s, t - 1))
  {
    MidnightDay(s);
    MidnightDay(t - 1);
    assert t * DayMs - DayMs == (t - 1) * DayMs;
  }

  /** The import of a VEVENT with timed DTSTART `a` and DTEND `b` and their TZIDs:
      both instants, the start in its TZID or the local zone, the end in its TZID or
      the start's. */
  lemma ImportTimed(env: Env, lines: seq<string>, freshId: string, a: int, b: int, sz: Option<string>, ez: Option<string>)
    requires env.Valid()
    requires var p := Scan(lines).props;
             "DTSTART" in p && ParseIcsDateTimeAsWritten(env, p["DTSTART"]) == Stamp(Some(a), false, sz)
             && "DTEND" in p && ParseIcsDateTimeAsWritten(env, p["DTEND"]) == Stamp(Some(b), false, ez)
    ensures var r := ImportVevent(env, lines, freshId);
            var zone := sz.GetOr(env.local);
            r.Some? && SameDetails(r.value, Details(Scan(lines).props, freshId))
            && r.value.startUtc == Present(a) && r.value.endUtc == Present(b)
            && r.value.startTimezone == Some(zone) && r.value.endTimezone == Some(ez.GetOr(zone))
  {
  }

  /** The all-day DTSTART of an event reads back as the midnight of its first day. */
  lemma AllDayStartParse(env: Env, e: Event)
    requires env.Valid() && !TimedExport(e) && e.start.Present? && FourDigitYear(e.start.value)
    ensures ParseIcsDateTimeAsWritten(env, Render(StartLine(env, e))) == Stamp(Some(e.start.value * DayMs), true, None)
  {
    AllDayStartLine(env, e);
    PlainKeys();
    AllDayLineReads(env, "DTSTART", e.start.value);
  }

  /** The all-day DTEND of an event reads back as the midnight after its last day. */
  lemma AllDayEndParse(env: Env, e: Event)
    requires env.Valid() && !TimedExport(e) && e.end.Present? && FourDigitYear(e.end.value + 1)
    ensures ParseIcsDateTimeAsWritten(env, Render(EndLine(env, e))) == Stamp(Some((e.end.value + 1) * DayMs), true, None)
  {
    AllDayEndLine(env, e);
    PlainKeys();
    AllDayLineReads(env, "DTEND", e.end.value + 1);
  }

  lemma AllDayStartLine(env: Env, e: Event)
    requires env.Valid() && !TimedExport(e) && e.start.Present?
    ensures StartLine(env, e) == AllDayLine("DTSTART", e.start.value)
  {
  }

  lemma AllDayEndLine(env: Env, e: Event)
    requires env.Valid() && !TimedExport(e) && e.end.Present?
    ensures EndLine(env, e) == AllDayLine("DTEND", e.end.value + 1)
  {
  }


  /** The timed date lines of an event read back as its instants to the second. */
  lemma TimedLinesParse(env: Env, e: Event)
    requires env.Valid() && TimedExport(e) && e.startUtc.Present? && e.endUtc.Present?
    requires var sz := ExportTzid(env, e.startTimezone);
             var ez := ExportTzid(env, e.endTimezone);
             (sz.Some? ==> TzidName(sz.value)) && (ez.Some? ==> TzidName(ez.value))
             && FourDigitYear(LocalDay(WrittenOffset(env, sz), e.startUtc.value))
             && FourDigitYear(LocalDay(WrittenOffset(env, ez), e.endUtc.value))
    ensures ParseIcsDateTimeAsWritten(env, Render(StartLine(env, e)))
            == Stamp(Some(TruncSecond(e.startUtc.value)), false, ExportTzid(env, e.startTimezone))
    ensures ParseIcsDateTimeAsWritten(env, Render(EndLine(env, e)))
            == Stamp(Some(TruncSecond(e.endUtc.value)), false, ExportTzid(env, e.endTimezone))
  {
    PlainKeys();
    TimedLineReads(env, "DTSTART", e.startUtc, e.startTimezone);
    TimedLineReads(env, "DTEND", e.endUtc, e.endTimezone);
  }

  lemma ExportedDates(e: Event, start: string, end: string)
    ensures var p := ExportedProps(e, start, end);
            "DTSTART" in p && p["DTSTART"] == start && "DTEND" in p && p["DTEND"] == end
  {
    VeventPropsLookup(e.id, EscapeIcsField(Some(e.name)), EscapedIfAny(e.description),
                      if e.color != "" then Some(e.color) else None, EscapedIfAny(e.location),
                      if e.rrule.Some? && e.rrule.value != "" then e.rrule else None, start, end);
  }

  /** The dates read back from an exported event's date lines. */
  lemma DatesRead(env: Env, e: Event, lines: seq<string>, freshId: string)
    requires env.Valid() && Resolve(env, e).Some? && Writable(env, e)
    requires Scan(lines).props == ExportedProps(e, Render(StartLine(env, e)), Render(EndLine(env, e)))
    ensures var r := ImportVevent(env, lines, freshId);
            r.Some? && SameDetails(r.value, Details(Scan(lines).props, freshId)) && DatesKept(env, r.value, e)
  {
    ExportedDates(e, Render(StartLine(env, e)), Render(EndLine(env, e)));
    if TimedExport(e) {
      TimedDatesRead(env, e, lines, freshId);
    } else {
      AllDayDatesRead(env, e, lines, freshId);
    }
  }

  lemma TimedDatesRead(env: Env, e: Event, lines: seq<string>, freshId: string)
    requires env.Valid() && Resolve(env, e).Some? && Writable(env, e) && TimedExport(e)
    requires var p := Scan(lines).props;
             "DTSTART" in p && p["DTSTART"] == Render(StartLine(env, e))
             && "DTEND" in p && p["DTEND"] == Render(EndLine(env, e))
    ensures var r := ImportVevent(env, lines, freshId);
            r.Some? && SameDetails(r.value, Details(Scan(lines).props, freshId)) && DatesKept(env, r.value, e)
  {
    TimedLinesParse(env, e);
    ImportTimed(env, lines, freshId, TruncSecond(e.startUtc.value), TruncSecond(e.endUtc.value),
                ExportTzid(env, e.startTimezone), ExportTzid(env, e.endTimezone));
  }

  lemma AllDayDatesRead(env: Env, e: Event, lines: seq<string>, freshId: string)
    requires env.Valid() && Resolve(env, e).Some? && Writable(env, e) && !TimedExport(e)
    requires var p := Scan(lines).props;
             "DTSTART" in p && p["DTSTART"] == Render(StartLine(env, e))
             && "DTEND" in p && p["DTEND"] == Render(EndLine(env, e))
    ensures var r := ImportVevent(env, lines, freshId);
            r.Some? && SameDetails(r.value, Details(Scan(lines).props, freshId)) && DatesKept(env, r.value, e)
  {
    AllDayStartParse(env, e);
    AllDayEndParse(env, e);
    ImportAllDay(env, lines, freshId, e.start.value, e.end.value + 1);
  }

  /** The lines an exported event is written as, before `END:VEVENT`. */
  lemma WrittenLines(env: Env, e: Event, now: int, freshId: string)
    requires env.Valid() && e.start.Truthy() && e.end.Truthy() && e.id != ""
    ensures Written(env, e, now, freshId)
            == RenderAll(VeventLines(e.id, DtStamp(now), EscapeIcsField(Some(e.name)), EscapedIfAny(e.description),
                                     if e.color != "" then Some(e.color) else None, EscapedIfAny(e.location),
                                     if e.rrule.Some? && e.rrule.value != "" then e.rrule else None,
                                     [StartLine(env, e), EndLine(env, e)]))
  {
    var block := RenderAll(EventLines(env, e, now, freshId)) + ["END:VEVENT"];
    assert ExportEvent(env, e, now, freshId) == Some(block);
    assert block[..|block| - 1] == RenderAll(EventLines(env, e, now, freshId));
  }

  /** The properties the import reads from an exported event. */
  lemma ExportedRead(env: Env, e: Event, now: int, freshId: string)
    requires env.Valid() && Resolve(env, e).Some? && Writable(env, e)
    ensures Scan(Unfold(Written(env, e, now, freshId))).props
            == ExportedProps(e, Render(StartLine(env, e)), Render(EndLine(env, e)))
  {
    DateLinesReadable(env, e);
    WrittenLines(env, e, now, freshId);
    VeventRead(e.id, DtStamp(now), EscapeIcsField(Some(e.name)), EscapedIfAny(e.description),
               if e.color != "" then Some(e.color) else None, EscapedIfAny(e.location),
               if e.rrule.Some? && e.rrule.value != "" then e.rrule else None, StartLine(env, e), EndLine(env, e));
  }

  lemma SameDetailsKept(a: Event, b: Event, e: Event)
    requires SameDetails(a, b) && DetailsKept(b, e)
    ensures DetailsKept(a, e)
  {
  }

  /** Exporting an event and importing its VEVENT gives the event back: the same id
      and texts (up to the import's defaults and trimming), the same days of an
      all-day event, and the instants of a timed one to the second, in the zones the
      export could name. */
  lemma ExportImportRoundTrip(env: Env, e: Event, now: int, freshId: string, freshId2: string)
    requires env.Valid() && Resolve(env, e).Some? && Writable(env, e) && PlainTexts(e)
    ensures var back := ImportVevent(env, Unfold(Written(env, e, now, freshId)), freshId2);
            back.Some? && DetailsKept(back.value, e) && DatesKept(env, back.value, e)
  {
    var lines := Unfold(Written(env, e, now, freshId));
    ExportedRead(env, e, now, freshId);
    var p := Scan(lines).props;
    DetailsRead(e, Render(StartLine(env, e)), Render(EndLine(env, e)), freshId2);
    DatesRead(env, e, lines, freshId2);
    var back := ImportVevent(env, lines, freshId2);
    SameDetailsKept(back.value, Details(p, freshId2), e);
  }
}
