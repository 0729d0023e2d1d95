/** Reading events from an iCalendar file (`importEvents`): the raw lines of one
    VEVENT are unfolded (section 3.1 of RFC 5545), the properties the calendar
    knows are picked out, the VEVENT becomes a stored event, and the imported events
    are merged into the stored list or replace it. */
module IcsImport {
  import opened Wrappers
  import opened Civil
  import opened Text
  import opened Events
  import opened EventEdits
  import opened IcsEscape
  import opened IcsDateTime

  // ---- unfolding ----

  /** A line that begins a content line: not empty and not a continuation. */
  predicate ContentStart(line: string) {
    line != "" && line[0] != ' ' && line[0] != '\t'
  }

  /** The unfolded lines so far and the content line being collected ("" for none). */
  datatype Unfolding = Unfolding(out: seq<string>, buffer: string)

  predicate WellFormed(u: Unfolding) {
    (forall i | 0 <= i < |u.out| :: ContentStart(u.out[i])) && (u.buffer == "" || ContentStart(u.buffer))
  }

  /** One raw line: an empty line with nothing collected is skipped; a line starting
      with a space or tab continues the collected line without its first character
      (and is lost when nothing is collected); any other line closes the collected
      line and starts a new one. */
  function UnfoldStep(u: Unfolding, raw: string): Unfolding {
    if raw == "" && u.buffer == "" then u
    else if raw != "" && (raw[0] == ' ' || raw[0] == '\t') then
      (if u.buffer != "" then u.(buffer := u.buffer + raw[1..]) else u)
    else Unfolding(Flush(u), raw)
  }

  /** The collected line, if any, appended to the output. */
  function Flush(u: Unfolding): seq<string> {
    if u.buffer != "" then u.out + [u.buffer] else u.out
  }

  function UnfoldFrom(u: Unfolding, raws: seq<string>): (r: Unfolding)
    ensures WellFormed(u) ==> WellFormed(r)
    ensures |u.out| <= |r.out| && r.out[..|u.out|] == u.out
    decreases |raws|
  {
    if raws == [] then u
    else
      var next := UnfoldStep(u, raws[0]);
      assert next.out[..|u.out|] == u.out;
      UnfoldFrom(next, raws[1..])
  }

  /** The unfolded content lines of a VEVENT's raw lines. */
  function Unfold(raws: seq<string>): (lines: seq<string>)
    ensures forall i | 0 <= i < |lines| :: ContentStart(lines[i])
  {
    Flush(UnfoldFrom(Unfolding([], ""), raws))
  }

  /** A content line folded into pieces: the first piece as it is, every further
      piece on its own line behind a space. */
  function FoldLine(pieces: seq<string>): seq<string>
    requires |pieces| >= 1
  {
    [pieces[0]] + Continuations(pieces[1..])
  }

  function Continuations(pieces: seq<string>): seq<string> {
    if pieces == [] then [] else [" " + pieces[0]] + Continuations(pieces[1..])
  }

  function Concat(pieces: seq<string>): string {
    if pieces == [] then "" else pieces[0] + Concat(pieces[1..])
  }

  /** Content lines, each given by its pieces, folded one after the other. */
  function FoldAll(lines: seq<seq<string>>): seq<string>
    requires forall i | 0 <= i < |lines| :: |lines[i]| >= 1
  {
    if lines == [] then [] else FoldLine(lines[0]) + FoldAll(lines[1..])
  }

  function Concats(lines: seq<seq<string>>): seq<string> {
    if lines == [] then [] else [Concat(lines[0])] + Concats(lines[1..])
  }

  lemma {:induction false} UnfoldFromConcat(u: Unfolding, a: seq<string>, b: seq<string>)
    ensures UnfoldFrom(u, a + b) == UnfoldFrom(UnfoldFrom(u, a), b)
    decreases |a|
  {
    if a != [] {
      assert (a + b)[1..] == a[1..] + b;
      UnfoldFromConcat(UnfoldStep(u, a[0]), a[1..], b);
    } else {
      assert a + b == b;
    }
  }

  lemma {:induction false} ContinuationsAppend(u: Unfolding, pieces: seq<string>)
    requires u.buffer != ""
    ensures UnfoldFrom(u, Continuations(pieces)) == u.(buffer := u.buffer + Concat(pieces))
    decreases |pieces|
  {
    if pieces != [] {
      var c := Continuations(pieces);
      assert c[0] == " " + pieces[0] && c[1..] == Continuations(pieces[1..]);
      assert (" " + pieces[0])[1..] == pieces[0];
      var next := u.(buffer := u.buffer + pieces[0]);
      assert UnfoldStep(u, c[0]) == next;
      ContinuationsAppend(next, pieces[1..]);
      assert u.buffer + pieces[0] + Concat(pieces[1..]) == u.buffer + Concat(pieces);
    }
  }

  lemma OneFoldedLine(u: Unfolding, pieces: seq<string>)
    requires |pieces| >= 1 && ContentStart(pieces[0])
    ensures UnfoldFrom(u, FoldLine(pieces)) == Unfolding(Flush(u), Concat(pieces))
  {
    var first := Unfolding(Flush(u), pieces[0]);
    assert UnfoldFrom(u, [pieces[0]]) == first;
    UnfoldFromConcat(u, [pieces[0]], Continuations(pieces[1..]));
    ContinuationsAppend(first, pieces[1..]);
  }

  lemma {:induction false} UnfoldFoldAll(u: Unfolding, lines: seq<seq<string>>)
    requires forall i | 0 <= i < |lines| :: |lines[i]| >= 1 && ContentStart(lines[i][0])
    ensures Flush(UnfoldFrom(u, FoldAll(lines))) == Flush(u) + Concats(lines)
    decreases |lines|
  {
    if lines != [] {
      UnfoldFromConcat(u, FoldLine(lines[0]), FoldAll(lines[1..]));
      OneFoldedLine(u, lines[0]);
      var next := Unfolding(Flush(u), Concat(lines[0]));
      assert Concat(lines[0]) != "" by {
        assert Concat(lines[0]) == lines[0][0] + Concat(lines[0][1..]);
      }
      UnfoldFoldAll(next, lines[1..]);
    }
  }

  /** Unfolding undoes folding: content lines split at any points into continuation
      lines come back whole. */
  lemma UnfoldInvertsFold(lines: seq<seq<string>>)
    requires forall i | 0 <= i < |lines| :: |lines[i]| >= 1 && ContentStart(lines[i][0])
    ensures Unfold(FoldAll(lines)) == Concats(lines)
  {
    UnfoldFoldAll(Unfolding([], ""), lines);
  }

  lemma {:induction false} UnfoldFromContent(u: Unfolding, lines: seq<string>)
    requires forall i | 0 <= i < |lines| :: ContentStart(lines[i])
    ensures Flush(UnfoldFrom(u, lines)) == Flush(u) + lines
    decreases |lines|
  {
    if lines != [] {
      var next := Unfolding(Flush(u), lines[0]);
      assert UnfoldStep(u, lines[0]) == next;
      UnfoldFromContent(next, lines[1..]);
      assert Flush(u) + lines == Flush(u) + [lines[0]] + lines[1..];
    }
  }

  /** Lines that are already content lines are left as they are. */
  lemma UnfoldKeepsContentLines(lines: seq<string>)
    requires forall i | 0 <= i < |lines| :: ContentStart(lines[i])
    ensures Unfold(lines) == lines
  {
    UnfoldFromContent(Unfolding([], ""), lines);
  }

  // ---- property extraction ----

  /** The properties an event takes. */
  const Recognized: set<string> :=
    {"SUMMARY", "DESCRIPTION", "DTSTART", "DTEND", "X-APPLE-CALENDAR-COLOR", "UID", "RRULE", "LOCATION"}

  predicate AlarmBegin(line: string) {
    StartsWith(line, "BEGIN:VALARM")
  }

  predicate AlarmEnd(line: string) {
    StartsWith(line, "END:VALARM")
  }

  /** The upper-cased name before the first ';' of the part before the first ':'. */
  function PropName(line: string): string {
    match Find(line, ':')
    case None => ""
    case Some(c) => Upper(Split(line[..c], ';')[0])
  }

  /** What is kept of a line: the whole line for DTSTART and DTEND (their parameters
      matter), the value after the first ':' otherwise. */
  function Entry(line: string): string {
    match Find(line, ':')
    case None => line
    case Some(c) => if PropName(line) == "DTSTART" || PropName(line) == "DTEND" then line else line[c + 1..]
  }

  datatype Scanned = Scanned(props: map<string, string>, inAlarm: bool)

  function ScanLine(sc: Scanned, line: string): Scanned {
    if AlarmBegin(line) then sc.(inAlarm := true)
    else if AlarmEnd(line) then sc.(inAlarm := false)
    else if sc.inAlarm || ':' !in line then sc
    else if PropName(line) in Recognized then sc.(props := sc.props[PropName(line) := Entry(line)])
    else sc
  }

  /** The properties of a VEVENT's unfolded lines, scanned in order. */
  function Scan(lines: seq<string>): Scanned
    decreases |lines|
  {
    if lines == [] then Scanned(map[], false)
    else ScanLine(Scan(lines[..|lines| - 1]), lines[|lines| - 1])
  }

  /** The lines end inside a VALARM block. */
  function AlarmOpen(lines: seq<string>): bool
    decreases |lines|
  {
    if lines == [] then false
    else if AlarmBegin(lines[|lines| - 1]) then true
    else if AlarmEnd(lines[|lines| - 1]) then false
    else AlarmOpen(lines[..|lines| - 1])
  }

  /** A line sets property `name` when the scan is outside any VALARM block, the line
      is not an alarm marker, has a ':', and names a property the event takes. */
  predicate SetsLine(inAlarm: bool, line: string, name: string) {
    !inAlarm && !AlarmBegin(line) && !AlarmEnd(line) && ':' in line && PropName(line) == name && name in Recognized
  }

  predicate Sets(lines: seq<string>, k: int, name: string) {
    0 <= k < |lines| && SetsLine(AlarmOpen(lines[..k]), lines[k], name)
  }

  lemma ScanLineSets(sc: Scanned, line: string, name: string)
    ensures SetsLine(sc.inAlarm, line, name) ==>
              name in ScanLine(sc, line).props && ScanLine(sc, line).props[name] == Entry(line)
    ensures !SetsLine(sc.inAlarm, line, name) ==>
              (name in ScanLine(sc, line).props <==> name in sc.props)
              && (name in sc.props ==> ScanLine(sc, line).props[name] == sc.props[name])
  {
  }

  lemma {:induction false} ScanTracksAlarm(lines: seq<string>)
    ensures Scan(lines).inAlarm == AlarmOpen(lines)
    decreases |lines|
  {
    if lines != [] {
      ScanTracksAlarm(lines[..|lines| - 1]);
    }
  }

  /** A property is present exactly when some line sets it, and then it holds what the
      last such line gives: later occurrences overwrite earlier ones, and lines
      inside VALARM or without ':' are ignored. */
  lemma {:induction false} ScanKeepsLast(lines: seq<string>, name: string)
    ensures name in Scan(lines).props <==> exists k :: Sets(lines, k, name)
    ensures name in Scan(lines).props ==>
              exists k :: Sets(lines, k, name) && Scan(lines).props[name] == Entry(lines[k])
                          && forall j | k < j < |lines| :: !Sets(lines, j, name)
    decreases |lines|
  {
    if lines != [] {
      var n := |lines| - 1;
      var pre := lines[..n];
      ScanKeepsLast(pre, name);
      ScanTracksAlarm(pre);
      forall k | 0 <= k < n ensures Sets(lines, k, name) == Sets(pre, k, name) {
        assert lines[..k] == pre[..k];
      }
      assert Scan(lines) == ScanLine(Scan(pre), lines[n]);
      ScanLineSets(Scan(pre), lines[n], name);
      assert Sets(lines, n, name) == SetsLine(Scan(pre).inAlarm, lines[n], name);
      if Sets(lines, n, name) {
        assert Scan(lines).props[name] == Entry(lines[n]);
        assert forall j | n < j < |lines| :: !Sets(lines, j, name);
      } else if name in Scan(pre).props {
        var k :| Sets(pre, k, name) && Scan(pre).props[name] == Entry(pre[k])
                 && forall j | k < j < |pre| :: !Sets(pre, j, name);
        assert Sets(lines, k, name) && Scan(lines).props[name] == Entry(lines[k]);
        forall j | k < j < |lines| ensures !Sets(lines, j, name) {
          if j < n {
            assert !Sets(pre, j, name);
            assert Sets(lines, j, name) == Sets(pre, j, name);
          } else {
            assert j == n;
          }
        }
      } else {
        forall k | 0 <= k < |lines| ensures !Sets(lines, k, name) {
          if k < n {
            assert !Sets(pre, k, name);
            assert Sets(lines, k, name) == Sets(pre, k, name);
          } else {
            assert k == n;
          }
        }
      }
    }
  }

  // ---- VEVENT to event ----

  const DefaultName: string := "Unbenanntes Ereignis"
  const DefaultColor: string := "#3b82f6"

  /** The marker after which an exported description carries generated text. */
  const Separator: string := "\n\n-::~:~::~:~:~:~:~:~:~:~:~:~:~:~:~:~:"

  /** `indexOf(t)`: the first index where `t` occurs. */
  function FindText(s: string, t: string): (r: Option<nat>)
    ensures r.Some? ==> OccursAt(s, t, r.value) && forall i | 0 <= i < r.value :: !OccursAt(s, t, i)
    ensures r.None? ==> forall i | 0 <= i <= |s| :: !OccursAt(s, t, i)
    decreases |s|
  {
    if |t| > |s| then None
    else if s[..|t|] == t then Some(0)
    else match FindText(s[1..], t)
      case None =>
        assert forall i | 1 <= i <= |s| :: OccursAt(s, t, i) == OccursAt(s[1..], t, i - 1);
        None
      case Some(k) =>
        assert forall i | 1 <= i <= |s| :: OccursAt(s, t, i) == OccursAt(s[1..], t, i - 1);
        Some(k + 1)
  }

  /** The description up to the separator. */
  function CutAtSeparator(s: string): (r: string)
    ensures FindText(s, Separator).None? ==> r == s
    ensures FindText(s, Separator).Some? ==> r == s[..FindText(s, Separator).value]
  {
    match FindText(s, Separator)
    case None => s
    case Some(i) => s[..i]
  }

  /** A property's value where it is present and not empty (`x || fallback` in JavaScript). */
  function Value(props: map<string, string>, name: string): (r: Option<string>)
    ensures r.Some? <==> name in props && props[name] != ""
    ensures r.Some? ==> r.value == props[name]
  {
    if name in props && props[name] != "" then Some(props[name]) else None
  }

  /** A property's text as the importer unescapes it. */
  function Unescaped(field: Option<string>): string {
    UnescapeIcsField(field)
  }

  /** The fields every imported event takes from the VEVENT, its dates left empty.
      The id is the unescaped UID, or `freshId` (the time-and-random id the importer
      makes) when the UID is missing. */
  function Details(props: map<string, string>, freshId: string): (e: Event)
    ensures e.name != ""
    ensures e.rrule == Value(props, "RRULE")
    ensures e.color == Value(props, "X-APPLE-CALENDAR-COLOR").GetOr(DefaultColor)
  {
    var summary := Unescaped(Value(props, "SUMMARY"));
    Event(
      Unescaped(Some(Value(props, "UID").GetOr(freshId))),
      if summary == "" then DefaultName else summary,
      Trim(CutAtSeparator(Unescaped(Value(props, "DESCRIPTION")))),
      Trim(Unescaped(Value(props, "LOCATION"))),
      Value(props, "X-APPLE-CALENDAR-COLOR").GetOr(DefaultColor),
      Missing, Missing, None, None, None, None, Missing, Missing,
      Value(props, "RRULE"))
  }

  /** The UTC calendar day of an instant (`toFormat("yyyy-MM-dd")` of a UTC DateTime). */
  function UtcDay(t: int): int {
    LocalDay(0, t)
  }

  /** An all-day VEVENT: the start's UTC day; the end is the day before an all-day
      DTEND (whose date is exclusive, section 3.6.1 of RFC 5545) and the start
      otherwise, never before the start. */
  function AllDayDates(e: Event, start: int, end: Option<Stamp>): (r: Event)
    ensures SameDetails(r, e) && r.start == Present(UtcDay(start)) && r.end.Present?
    ensures r.end.value == Max(UtcDay(start),
                               if end.Some? && end.value.instant.Some? && end.value.allDay
                               then UtcDay(end.value.instant.value - DayMs) else UtcDay(start))
    ensures !r.startUtc.Truthy() && !r.endUtc.Truthy() && r.time.None? && r.endTime.None?
    ensures r.startTimezone.None? && r.endTimezone.None?
  {
    var first := UtcDay(start);
    var last := if end.Some? && end.value.instant.Some? && end.value.allDay
                then UtcDay(end.value.instant.value - DayMs) else first;
    e.(start := Present(first), end := Present(if last < first then first else last),
       time := None, endTime := None, startTimezone := None, endTimezone := None,
       startUtc := Missing, endUtc := Missing)
  }

  /** A timed VEVENT: the start is read in its TZID or the browser's zone; the end
      comes from a timed DTEND, read in its TZID or the start's zone, and is an hour
      after the start in the start's zone otherwise. */
  function TimedDates(env: Env, e: Event, start: int, startTzid: Option<string>, end: Option<Stamp>): (r: Event)
    requires env.Valid()
    ensures SameDetails(r, e)
    ensures var zone := startTzid.GetOr(env.local);
            r.startUtc == Present(start) && r.startTimezone == Some(zone)
            && (env.Offset(zone).Some? ==> StartReads(env, r, zone, start))
    ensures end.Some? && end.value.instant.Some? && !end.value.allDay ==>
              var zone := end.value.tzid.GetOr(startTzid.GetOr(env.local));
              r.endUtc == Present(end.value.instant.value) && r.endTimezone == Some(zone)
              && (env.Offset(zone).Some? ==> EndReads(env, r, zone, end.value.instant.value))
    ensures !(end.Some? && end.value.instant.Some? && !end.value.allDay) ==>
              r.endUtc == Present(start + HourMs) && r.endTimezone == r.startTimezone
  {
    var zone := startTzid.GetOr(env.local);
    var withStart := WriteStart(env, e, zone, start);
    if end.Some? && end.value.instant.Some? && !end.value.allDay then
      WriteEnd(env, withStart, end.value.tzid.GetOr(zone), end.value.instant.value)
    else WriteEnd(env, withStart, zone, start + HourMs)
  }

  /** A VEVENT's unfolded lines as a stored event; None where it has no DTSTART or
      the DTSTART does not read. */
  function ImportVevent(env: Env, lines: seq<string>, freshId: string): (r: Option<Event>)
    requires env.Valid()
    ensures var props := Scan(lines).props;
            r.Some? <==> "DTSTART" in props && ParseIcsDateTimeAsWritten(env, props["DTSTART"]).instant.Some?
    ensures r.Some? ==> SameDetails(r.value, Details(Scan(lines).props, freshId))
    ensures r.Some? ==>
              (r.value.startUtc.Truthy() <==> !ParseIcsDateTimeAsWritten(env, Scan(lines).props["DTSTART"]).allDay)
    ensures r.Some? && !r.value.startUtc.Truthy() ==>
              r.value.start.Present? && r.value.end.Present? && r.value.start.value <= r.value.end.value
    ensures r.Some? && r.value.startUtc.Truthy() ==> r.value.startUtc.Present? && r.value.endUtc.Present?
  {
    var props := Scan(lines).props;
    if "DTSTART" !in props then None
    else
      var start := ParseIcsDateTimeAsWritten(env, props["DTSTART"]);
      if start.instant.None? then None
      else
        var end := if "DTEND" in props then Some(ParseIcsDateTimeAsWritten(env, props["DTEND"])) else None;
        var e := Details(props, freshId);
        if start.allDay then Some(AllDayDates(e, start.instant.value, end))
        else Some(TimedDates(env, e, start.instant.value, start.tzid, end))
  }

  /** Every imported event is one the renderer draws. */
  lemma ImportedEventsResolve(env: Env, lines: seq<string>, freshId: string)
    requires env.Valid() && ImportVevent(env, lines, freshId).Some?
    ensures Resolve(env, ImportVevent(env, lines, freshId).value).Some?
  {
  }

  // ---- merge ----

  /** One imported event: it replaces the first stored event with its id, or is
      appended when there is none. */
  function MergeOne(events: seq<Event>, imp: Event): (r: seq<Event>)
    ensures FirstWithId(events, imp.id).Some? ==> |r| == |events|
    ensures FirstWithId(events, imp.id).None? ==> |r| == |events| + 1 && r[..|events|] == events
    ensures forall k | 0 <= k < |events| && events[k].id != imp.id :: r[k] == events[k]
    ensures forall k | 0 <= k < |r| :: r[k] == imp || (k < |events| && r[k] == events[k])
    ensures FirstWithId(r, imp.id) == FirstWithId(events, imp.id) || FirstWithId(r, imp.id) == Some(|events|)
    ensures FirstWithId(r, imp.id).Some? && r[FirstWithId(r, imp.id).value] == imp
  {
    match FirstWithId(events, imp.id)
    case Some(i) =>
      var r := events[i := imp];
      FirstWithIdAt(r, imp.id, i);
      r
    case None =>
      var r := events + [imp];
      FirstWithIdAt(r, imp.id, |events|);
      r
  }

  /** The imported events merged in order. */
  function MergeAll(events: seq<Event>, imported: seq<Event>): seq<Event>
    decreases |imported|
  {
    if imported == [] then events
    else MergeOne(MergeAll(events, imported[..|imported| - 1]), imported[|imported| - 1])
  }

  /** The stored list after an import: unchanged when nothing was imported, merged
      when the user chose to merge, and replaced otherwise. */
  function ImportInto(events: seq<Event>, imported: seq<Event>, merge: bool): (r: seq<Event>)
    ensures imported == [] ==> r == events
    ensures imported != [] && !merge ==> r == imported
  {
    if imported == [] then events
    else if merge then MergeAll(events, imported)
    else imported
  }

  predicate HasId(events: seq<Event>, id: string) {
    exists k | 0 <= k < |events| :: events[k].id == id
  }

  /** Merging keeps every stored event at its place, and keeps it unchanged unless
      an imported event has its id. */
  lemma {:induction false} MergeKeepsStored(events: seq<Event>, imported: seq<Event>)
    ensures var r := MergeAll(events, imported);
            |events| <= |r|
            && (forall i | 0 <= i < |events| :: r[i].id == events[i].id)
            && (forall i | 0 <= i < |events| && !HasId(imported, events[i].id) :: r[i] == events[i])
    decreases |imported|
  {
    if imported != [] {
      var n := |imported| - 1;
      var pre := imported[..n];
      MergeKeepsStored(events, pre);
      var m := MergeAll(events, pre);
      var r := MergeOne(m, imported[n]);
      assert MergeAll(events, imported) == r;
      forall i | 0 <= i < |events| && !HasId(imported, events[i].id) ensures r[i] == events[i] {
        forall k | 0 <= k < n ensures pre[k].id != events[i].id {
          assert pre[k] == imported[k];
        }
        assert imported[n].id != events[i].id;
      }
    }
  }

  /** Every event after a merge has the id of a stored or an imported event. */
  lemma {:induction false} MergeOnlyKnownIds(events: seq<Event>, imported: seq<Event>)
    ensures var r := MergeAll(events, imported);
            forall k | 0 <= k < |r| :: HasId(events, r[k].id) || HasId(imported, r[k].id)
    decreases |imported|
  {
    if imported != [] {
      var n := |imported| - 1;
      var pre := imported[..n];
      var imp := imported[n];
      MergeOnlyKnownIds(events, pre);
      var m := MergeAll(events, pre);
      assert forall k | 0 <= k < |MergeAll(events, pre)| :: HasId(events, MergeAll(events, pre)[k].id) || HasId(pre, MergeAll(events, pre)[k].id);
      var r := MergeOne(m, imp);
      assert MergeAll(events, imported) == r;
      forall k | 0 <= k < |r| ensures HasId(events, r[k].id) || HasId(imported, r[k].id) {
        if r[k] == imp {
          assert imported[n].id == r[k].id;
        } else {
          assert k < |m| && r[k] == m[k];
          assert HasId(events, m[k].id) || HasId(pre, m[k].id);
          if !HasId(events, m[k].id) {
            var k2 :| 0 <= k2 < n && pre[k2].id == m[k].id;
            assert imported[k2] == pre[k2];
          }
        }
      }
    }
  }

  /** For every imported id, the first event with it after a merge is the last
      imported event with it. */
  lemma {:induction false} MergeLastImportWins(events: seq<Event>, imported: seq<Event>)
    ensures var r := MergeAll(events, imported);
            forall j | 0 <= j < |imported| && (forall j2 | j < j2 < |imported| :: imported[j2].id != imported[j].id) ::
              FirstWithId(r, imported[j].id).Some? && r[FirstWithId(r, imported[j].id).value] == imported[j]
    decreases |imported|
  {
    if imported != [] {
      var n := |imported| - 1;
      var pre := imported[..n];
      var imp := imported[n];
      MergeLastImportWins(events, pre);
      var m := MergeAll(events, pre);
      var r := MergeOne(m, imp);
      assert MergeAll(events, imported) == r;
      forall j | 0 <= j < |imported| && (forall j2 | j < j2 < |imported| :: imported[j2].id != imported[j].id)
        ensures FirstWithId(r, imported[j].id).Some? && r[FirstWithId(r, imported[j].id).value] == imported[j]
      {
        if j < n {
          assert pre[j] == imported[j];
          forall j2 | j < j2 < n ensures pre[j2].id != pre[j].id {
            assert pre[j2] == imported[j2];
          }
          assert imp.id != imported[j].id;
          MergeOneKeepsOthers(m, imp, imported[j].id);
        }
      }
    }
  }

  /** Merging one event leaves the first event of every other id where it was. */
  lemma MergeOneKeepsOthers(events: seq<Event>, imp: Event, id: string)
    requires id != imp.id
    ensures FirstWithId(MergeOne(events, imp), id) == FirstWithId(events, id)
    ensures FirstWithId(events, id).Some? ==>
              MergeOne(events, imp)[FirstWithId(events, id).value] == events[FirstWithId(events, id).value]
  {
    var r := MergeOne(events, imp);
    match FirstWithId(events, id)
    case Some(v) =>
      forall j | 0 <= j < v ensures r[j].id != id {
      }
      FirstWithIdAt(r, id, v);
    case None =>
      assert forall k | 0 <= k < |r| :: r[k].id != id;
  }
}
