/** `DateUtils.formatDateTimeRange`: the date (and, for timed events, time) range the
    event popups show, in German day-first notation. */
module RangeText {
  import opened Wrappers
  import opened Civil
  import opened Text
  import opened TimeText
  import opened Events
  import opened EventEdits

  const BadInput: string := "Ungültiger Eingabebereich"
  const BadTimes: string := "Ungültige Zeitdaten"
  const BadDates: string := "Ungültige Datumsobjekte"

  /** luxon `toFormat("dd.MM.yyyy")`. */
  function DateText(d: Date): (s: string)
    requires ValidDate(d)
  {
    Pad2(d.day) + "." + Pad2(d.month) + "." + FormatYear(d.year)
  }

  /** The date part for local days `a` and `b`: one date for a single day; otherwise
      the start shortened by what it shares with the end (the month and year, or the
      year), then " - " and the full end date. */
  function DateRangeText(a: int, b: int): (s: string) {
    var s := FromDays(a);
    var e := FromDays(b);
    if a == b then DateText(s)
    else if s.month == e.month && s.year == e.year then Pad2(s.day) + ". - " + DateText(e)
    else if s.year == e.year then Pad2(s.day) + "." + Pad2(s.month) + ". - " + DateText(e)
    else DateText(s) + " - " + DateText(e)
  }

  /** The whole text. `allDayExplicit` is the caller's all-day flag, if it passed
      one; `zone` is the display zone ("" when none was passed). Dates are read in the
      display zone, the clock times of a timed event in the event's own zones. */
  function FormatDateTimeRange(env: Env, e: Event, allDayExplicit: Option<bool>, zone: string): (r: string)
    ensures !e.start.Truthy() || !e.end.Truthy() || zone == "" ==> r == BadInput
    ensures e.start.Truthy() && e.end.Truthy() && zone != "" && allDayExplicit.GetOr(!e.startUtc.Truthy()) ==>
              if env.Offset(zone).Some? && e.start.Present? && e.end.Present?
              then r == DateRangeText(e.start.value, e.end.value)
              else r == BadDates
    ensures (e.start.Truthy() && e.end.Truthy() && zone != "" && !allDayExplicit.GetOr(!e.startUtc.Truthy())
             && !(e.startUtc.Truthy() && e.endUtc.Truthy())) ==> r == BadTimes
    ensures (e.start.Truthy() && e.end.Truthy() && zone != "" && !allDayExplicit.GetOr(!e.startUtc.Truthy())
             && e.startUtc.Truthy() && e.endUtc.Truthy()
             && (env.Offset(zone).None? || !e.startUtc.Present? || !e.endUtc.Present?)) ==> r == BadDates
  {
    if !e.start.Truthy() || !e.end.Truthy() || zone == "" then BadInput
    else if allDayExplicit.GetOr(!e.startUtc.Truthy()) then
      if env.Offset(zone).Some? && e.start.Present? && e.end.Present? then DateRangeText(e.start.value, e.end.value)
      else BadDates
    else TimedRange(env, e, zone)
  }

  /** The timed case: both instants are needed, and both must be readable in the
      display zone. */
  function TimedRange(env: Env, e: Event, zone: string): string {
    if !e.startUtc.Truthy() || !e.endUtc.Truthy() then BadTimes
    else if env.Offset(zone).None? || !e.startUtc.Present? || !e.endUtc.Present? then BadDates
    else
      var off := env.Offset(zone).value;
      TimedText(DateRangeText(LocalDay(off, e.startUtc.value), LocalDay(off, e.endUtc.value)),
                ClockText(env, OrElse(e.startTimezone, zone), e.startUtc.value),
                ClockText(env, OrElse(e.endTimezone, zone), e.endUtc.value))
  }

  /** The dates followed by the clock times: "HH:mm - HH:mm" when both clocks are
      there, "ab HH:mm" when only the start is, nothing otherwise. */
  function TimedText(dates: string, startClock: string, endClock: string): string {
    var times := if startClock != "" && endClock != "" then startClock + " - " + endClock
                 else if startClock != "" then "ab " + startClock
                 else "";
    if times != "" then dates + ", " + times else dates
  }

  /** A timed event always gets both clock times ("ab HH:mm" never shows, since a
      formatted clock is never empty); the dates are its local days in the display
      zone, and each clock is the one its instant reads in the event's own zone (see
      `ClockText`). */
  lemma TimedRangeText(env: Env, e: Event, allDayExplicit: Option<bool>, zone: string)
    requires e.start.Truthy() && e.end.Truthy() && zone != "" && !allDayExplicit.GetOr(!e.startUtc.Truthy())
    requires e.startUtc.Present? && e.endUtc.Present? && env.Offset(zone).Some?
    ensures var off := env.Offset(zone).value;
            FormatDateTimeRange(env, e, allDayExplicit, zone)
              == DateRangeText(LocalDay(off, e.startUtc.value), LocalDay(off, e.endUtc.value)) + ", "
                 + (ClockText(env, OrElse(e.startTimezone, zone), e.startUtc.value) + " - "
                    + ClockText(env, OrElse(e.endTimezone, zone), e.endUtc.value))
  {
    var c1 := ClockText(env, OrElse(e.startTimezone, zone), e.startUtc.value);
    var c2 := ClockText(env, OrElse(e.endTimezone, zone), e.endUtc.value);
    ClockNonEmpty(env, OrElse(e.startTimezone, zone), e.startUtc.value);
    ClockNonEmpty(env, OrElse(e.endTimezone, zone), e.endUtc.value);
    var off := env.Offset(zone).value;
    var dates := DateRangeText(LocalDay(off, e.startUtc.value), LocalDay(off, e.endUtc.value));
    TimedTextBoth(dates, c1, c2);
  }

  lemma TimedTextBoth(dates: string, c1: string, c2: string)
    requires c1 != "" && c2 != ""
    ensures TimedText(dates, c1, c2) == dates + ", " + (c1 + " - " + c2)
  {
    assert c1 + " - " + c2 != "";
  }

  lemma ClockNonEmpty(env: Env, zone: string, t: int)
    ensures ClockText(env, zone, t) != ""
  {
    if env.Offset(zone).Some? {
      assert ClockOf(ClockText(env, zone, t)).Some?;
    } else {
      assert ClockText(env, zone, t) == InvalidDateTime;
    }
  }

  // ---- reading the date part back ----

  function ReadTwo(s: string): (r: Option<int>)
    requires |s| == 2
  {
    if AllDigits(s) then Some(DigitsValue(s)) else None
  }

  /** A `dd.MM.yyyy` date with a four-digit year. */
  function ReadDate(s: string): (r: Option<Date>)
  {
    if |s| == 10 && s[2] == '.' && s[5] == '.' && AllDigits(s[6..]) then
      match (ReadTwo(s[..2]), ReadTwo(s[3..5]))
      case (Some(d), Some(m)) => Some(Date(DigitsValue(s[6..]), m, d))
      case _ => None
    else None
  }

  /** Reading the date part back into its start and end dates; each shortened form
      is told apart by its length. */
  function ReadDateRange(s: string): (r: Option<(Date, Date)>)
  {
    if |s| == 10 then
      match ReadDate(s)
      case Some(d) => Some((d, d))
      case None => None
    else if |s| == 16 && s[2..6] == ". - " then
      match (ReadTwo(s[..2]), ReadDate(s[6..]))
      case (Some(d), Some(e)) => Some((Date(e.year, e.month, d), e))
      case _ => None
    else if |s| == 19 && s[2] == '.' && s[5..9] == ". - " then
      match (ReadTwo(s[..2]), ReadTwo(s[3..5]), ReadDate(s[9..]))
      case (Some(d), Some(m), Some(e)) => Some((Date(e.year, m, d), e))
      case _ => None
    else if |s| == 23 && s[10..13] == " - " then
      match (ReadDate(s[..10]), ReadDate(s[13..]))
      case (Some(a), Some(b)) => Some((a, b))
      case _ => None
    else None
  }

  lemma ReadTwoOfPad2(n: int)
    requires 0 <= n <= 99
    ensures ReadTwo(Pad2(n)) == Some(n)
  {
  }

  /** A date with a four-digit year reads back from its text. */
  lemma ReadDateOfText(d: Date)
    requires ValidDate(d) && 0 <= d.year <= 9999
    ensures ReadDate(DateText(d)) == Some(d)
  {
    var s := DateText(d);
    assert s[..2] == Pad2(d.day);
    assert s[3..5] == Pad2(d.month);
    assert s[6..] == Pad4(d.year);
    ReadTwoOfPad2(d.day);
    ReadTwoOfPad2(d.month);
  }

  predicate FourDigits(d: Date) {
    ValidDate(d) && 0 <= d.year <= 9999
  }

  lemma SameMonthReads(s: Date, e: Date)
    requires FourDigits(s) && FourDigits(e) && s.month == e.month && s.year == e.year
    ensures ReadDateRange(Pad2(s.day) + ". - " + DateText(e)) == Some((s, e))
  {
    var t := Pad2(s.day) + ". - " + DateText(e);
    ReadDateOfText(e);
    ReadTwoOfPad2(s.day);
    assert t[..2] == Pad2(s.day) && t[2..6] == ". - " && t[6..] == DateText(e);
  }

  lemma SameYearReads(s: Date, e: Date)
    requires FourDigits(s) && FourDigits(e) && s.year == e.year
    ensures ReadDateRange(Pad2(s.day) + "." + Pad2(s.month) + ". - " + DateText(e)) == Some((s, e))
  {
    var t := Pad2(s.day) + "." + Pad2(s.month) + ". - " + DateText(e);
    ReadDateOfText(e);
    ReadTwoOfPad2(s.day);
    ReadTwoOfPad2(s.month);
    assert t[..2] == Pad2(s.day) && t[2] == '.' && t[3..5] == Pad2(s.month);
    assert t[5..9] == ". - " && t[9..] == DateText(e);
  }

  lemma FullReads(s: Date, e: Date)
    requires FourDigits(s) && FourDigits(e)
    ensures ReadDateRange(DateText(s) + " - " + DateText(e)) == Some((s, e))
  {
    var t := DateText(s) + " - " + DateText(e);
    ReadDateOfText(s);
    ReadDateOfText(e);
    assert t[..10] == DateText(s) && t[10..13] == " - " && t[13..] == DateText(e);
  }

  /** The date part reads back as both dates, for days in four-digit years: so two
      different ranges never print the same text. */
  lemma DateRangeRoundTrip(a: int, b: int)
    requires 0 <= FromDays(a).year <= 9999 && 0 <= FromDays(b).year <= 9999
    ensures ReadDateRange(DateRangeText(a, b)) == Some((FromDays(a), FromDays(b)))
  {
    var s := FromDays(a);
    var e := FromDays(b);
    if a == b {
      ReadDateOfText(s);
    } else if s.month == e.month && s.year == e.year {
      SameMonthReads(s, e);
    } else if s.year == e.year {
      SameYearReads(s, e);
    } else {
      FullReads(s, e);
    }
  }

  /** Different days in four-digit years give different date texts. */
  lemma DateRangeInjective(a: int, b: int, c: int, d: int)
    requires 0 <= FromDays(a).year <= 9999 && 0 <= FromDays(b).year <= 9999
    requires 0 <= FromDays(c).year <= 9999 && 0 <= FromDays(d).year <= 9999
    requires DateRangeText(a, b) == DateRangeText(c, d)
    ensures a == c && b == d
  {
    DateRangeRoundTrip(a, b);
    DateRangeRoundTrip(c, d);
  }
}
