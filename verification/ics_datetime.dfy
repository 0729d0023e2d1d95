/** iCalendar DATE and DATE-TIME values (sections 3.3.4 and 3.3.5 of RFC 5545) as
    `parseIcsDateTime` reads a whole DTSTART/DTEND content line and
    `formatIcsDateTime` writes a value. A luxon DateTime is an instant seen in a
    zone; the reading of digits stands in for luxon's `fromFormat`. */
module IcsDateTime {
  import opened Wrappers
  import opened Civil
  import opened Text
  import opened TimeText
  import opened Events

  // ---- digits ----

  /** `toFormat("yyyyMMdd")` of a calendar date. */
  function Ymd(d: Date): string
    requires ValidDate(d)
  {
    FormatYear(d.year) + Pad2(d.month) + Pad2(d.day)
  }

  /** `toFormat("HHmmss")` of a second of the day. */
  function Hms(sec: int): (s: string)
    requires 0 <= sec < 86400
    ensures |s| == 6 && AllDigits(s)
  {
    Pad2(sec / 3600) + Pad2(sec / 60 % 60) + Pad2(sec % 60)
  }

  /** The day lies in a year luxon prints with exactly four digits. */
  predicate FourDigitYear(day: int) {
    0 <= FromDays(day).year <= 9999
  }

  /** `fromFormat(v, "yyyyMMdd")`: eight digits naming a calendar date, as a day number. */
  function ReadYmd(v: string): (r: Option<int>)
    ensures r.Some? ==> |v| == 8 && AllDigits(v)
  {
    if |v| == 8 && AllDigits(v) then
      var d := Date(DigitsValue(v[..4]), DigitsValue(v[4..6]), DigitsValue(v[6..]));
      if ValidDate(d) then Some(ToDays(d)) else None
    else None
  }

  /** `fromFormat(v, "HHmmss")`: six digits naming a time of day, as a second of the day. */
  function ReadHms(v: string): (r: Option<int>)
    ensures r.Some? ==> 0 <= r.value < 86400
  {
    if |v| == 6 && AllDigits(v) && DigitsValue(v[..2]) <= 23 && DigitsValue(v[2..4]) <= 59 && DigitsValue(v[4..]) <= 59
    then Some(DigitsValue(v[..2]) * 3600 + DigitsValue(v[2..4]) * 60 + DigitsValue(v[4..]))
    else None
  }

  /** `fromFormat(v, "yyyyMMdd'T'HHmmss")`: the day and the second of the day. */
  function ReadStamp(v: string): (r: Option<(int, int)>)
    ensures r.Some? ==> 0 <= r.value.1 < 86400
  {
    if |v| == 15 && v[8] == 'T' && ReadYmd(v[..8]).Some? && ReadHms(v[9..]).Some?
    then Some((ReadYmd(v[..8]).value, ReadHms(v[9..]).value))
    else None
  }

  /** The instant of a wall-clock second in a zone with the given offset. */
  function StampInstant(offset: int, day: int, sec: int): int {
    day * DayMs + sec * SecondMs - offset * MinuteMs
  }

  /** The instant with its milliseconds dropped: what survives printing to the second. */
  function TruncSecond(t: int): int {
    t - t % SecondMs
  }

  /** `toFormat("yyyyMMdd'T'HHmmss")` of an instant seen in a zone. */
  function StampText(offset: int, t: int): string {
    Ymd(FromDays(LocalDay(offset, t))) + "T" + Hms(MsOfDay(offset, t) / SecondMs)
  }

  lemma Pad4OfDigits(x: string)
    requires |x| == 4 && AllDigits(x)
    ensures DigitsValue(x) <= 9999 && Pad4(DigitsValue(x)) == x
  {
    var a := x[..2];
    var b := x[2..];
    Pad2OfDigits(a);
    Pad2OfDigits(b);
    assert x[..3] == a + [x[2]] && x == x[..3] + [x[3]];
    DigitsValueSnoc(a, x[2]);
    DigitsValueSnoc(x[..3], x[3]);
    assert b == [x[2]] + [x[3]];
    DigitsValueSnoc([x[2]], x[3]);
    assert DigitsValue([x[2]]) == DigitValue(x[2]) by {
      DigitsValueSnoc([], x[2]);
      assert [] + [x[2]] == [x[2]];
    }
    var n := DigitsValue(x);
    assert n == DigitsValue(a) * 100 + DigitsValue(b);
    assert n / 100 == DigitsValue(a) && n % 100 == DigitsValue(b);
    assert x == a + b;
  }

  /** Every date of a four-digit year prints as eight digits that read back as it ... */
  lemma ReadYmdOfYmd(day: int)
    requires FourDigitYear(day)
    ensures |Ymd(FromDays(day))| == 8 && ReadYmd(Ymd(FromDays(day))) == Some(day)
  {
    var d := FromDays(day);
    var s := Ymd(d);
    assert s == Pad4(d.year) + Pad2(d.month) + Pad2(d.day);
    assert s[..4] == Pad4(d.year) && s[4..6] == Pad2(d.month) && s[6..] == Pad2(d.day);
  }

  /** ... and every eight digits that read as a date are that date's print. */
  lemma YmdOfReadYmd(v: string)
    requires ReadYmd(v).Some?
    ensures FourDigitYear(ReadYmd(v).value) && Ymd(FromDays(ReadYmd(v).value)) == v
  {
    var d := Date(DigitsValue(v[..4]), DigitsValue(v[4..6]), DigitsValue(v[6..]));
    FromDaysToDays(d);
    Pad4OfDigits(v[..4]);
    Pad2OfDigits(v[4..6]);
    Pad2OfDigits(v[6..]);
    assert v == v[..4] + v[4..6] + v[6..];
  }

  lemma ReadHmsOfHms(sec: int)
    requires 0 <= sec < 86400
    ensures ReadHms(Hms(sec)) == Some(sec)
  {
    var s := Hms(sec);
    var h, m, x := sec / 3600, sec / 60 % 60, sec % 60;
    assert s[..2] == Pad2(h) && s[2..4] == Pad2(m) && s[4..] == Pad2(x);
    ClockParts(sec);
  }

  lemma ClockParts(sec: int)
    requires 0 <= sec < 86400
    ensures sec / 3600 <= 23 && sec / 60 % 60 <= 59 && sec % 60 <= 59
    ensures sec / 3600 * 3600 + sec / 60 % 60 * 60 + sec % 60 == sec
  {
    var mins := sec / 60;
    assert sec == mins * 60 + sec % 60;
    assert mins == mins / 60 * 60 + mins % 60;
    assert mins / 60 == sec / 3600;
  }

  /** Printing to the second and reading back in the same zone keeps the instant up
      to its milliseconds. */
  lemma ReadStampOfStampText(offset: int, t: int)
    requires FourDigitYear(LocalDay(offset, t))
    ensures var r := ReadStamp(StampText(offset, t));
            r.Some? && StampInstant(offset, r.value.0, r.value.1) == TruncSecond(t)
  {
    var day := LocalDay(offset, t);
    var sec := MsOfDay(offset, t) / SecondMs;
    var ymd := Ymd(FromDays(day));
    var s := StampText(offset, t);
    ReadYmdOfYmd(day);
    ReadHmsOfHms(sec);
    assert s[..8] == ymd && s[8] == 'T' && s[9..] == Hms(sec);
    StampInstantOf(offset, t);
  }

  lemma StampInstantOf(offset: int, t: int)
    ensures StampInstant(offset, LocalDay(offset, t), MsOfDay(offset, t) / SecondMs) == TruncSecond(t)
  {
    var l := LocalMs(offset, t);
    var q := l / DayMs;
    var r := l % DayMs;
    var s := r / SecondMs;
    var m := r % SecondMs;
    assert l == q * DayMs + r;
    assert r == s * SecondMs + m;
    var k := q * 86_400 + s - offset * 60;
    assert t == k * SecondMs + m;
    RemainderUnique(t, k, m);
  }

  lemma RemainderUnique(t: int, k: int, m: int)
    requires t == k * SecondMs + m && 0 <= m < SecondMs
    ensures t % SecondMs == m
  {
  }

  // ---- formatIcsDateTime ----

  /** A valid luxon DateTime: an instant and the offset of the zone it is seen in. */
  datatype Seen = Seen(ms: int, offset: int)

  /** The zone the timed value is written in: a non-empty TZID luxon knows. */
  function KnownTzid(env: Env, tzid: Option<string>): (off: Option<int>)
    ensures off.Some? ==> tzid.Some? && tzid.value != "" && env.Offset(tzid.value) == off
  {
    if tzid.Some? && tzid.value != "" then env.Offset(tzid.value) else None
  }

  /** `formatIcsDateTime`: "" for an invalid DateTime, `VALUE=DATE:yyyyMMdd` for an
      all-day value, the local `yyyyMMdd'T'HHmmss` in a known TZID, and otherwise UTC
      with a trailing 'Z'. */
  function FormatIcsDateTime(env: Env, dt: Option<Seen>, allDay: bool, tzid: Option<string>): (s: string)
    ensures s == "" <==> dt.None?
    ensures dt.Some? && allDay ==>
              s == DateParam + ":" + Ymd(FromDays(LocalDay(dt.value.offset, dt.value.ms)))
    ensures dt.Some? && !allDay && KnownTzid(env, tzid).Some? ==> s == StampText(KnownTzid(env, tzid).value, dt.value.ms)
    ensures dt.Some? && !allDay && KnownTzid(env, tzid).None? ==> s == StampText(0, dt.value.ms) + "Z"
  {
    match dt
    case None => ""
    case Some(Seen(ms, offset)) =>
      if allDay then DateParam + ":" + Ymd(FromDays(LocalDay(offset, ms)))
      else match KnownTzid(env, tzid)
        case Some(off) => StampText(off, ms)
        case None => StampText(0, ms) + "Z"
  }

  // ---- parseIcsDateTime ----

  /** The text whose presence among the parameters marks a DATE value. */
  const DateParam: string := "VALUE=DATE"

  /** The parameter `VALUE=DATE-TIME`, which also contains `VALUE=DATE`. */
  const DateTimeParam: string := "VALUE=DATE-TIME"

  /** What `parseIcsDateTime` returns: the instant (null when the value does not
      read), whether it is a date, and the TZID parameter as written. */
  datatype Stamp = Stamp(instant: Option<int>, allDay: bool, tzid: Option<string>)

  /** The characters that end a TZID value: `;`, `:` and JavaScript whitespace. */
  predicate TzidStop(c: char) {
    c == ';' || c == ':' || IsJsSpace(c)
  }

  /** The longest prefix without a TZID stop character. */
  function StopPrefix(s: string): (r: string)
    ensures |r| <= |s| && r == s[..|r|]
    ensures forall i | 0 <= i < |r| :: !TzidStop(r[i])
    ensures |r| < |s| ==> TzidStop(s[|r|])
  {
    if s == [] || TzidStop(s[0]) then []
    else
      var rest := StopPrefix(s[1..]);
      assert [s[0]] + rest == s[..|rest| + 1];
      [s[0]] + rest
  }

  /** `/TZID=([^;:\s]+)/i` matches at index `i`. */
  predicate TzidAt(p: string, i: int) {
    0 <= i && i + 5 < |p|
    && UpperChar(p[i]) == 'T' && UpperChar(p[i + 1]) == 'Z' && UpperChar(p[i + 2]) == 'I'
    && UpperChar(p[i + 3]) == 'D' && p[i + 4] == '=' && !TzidStop(p[i + 5])
  }

  /** The first match at or after `i`. */
  function FirstTzid(p: string, i: nat): (r: Option<nat>)
    ensures r.Some? ==> i <= r.value && TzidAt(p, r.value)
    ensures r.Some? ==> forall j | i <= j < r.value :: !TzidAt(p, j)
    ensures r.None? ==> forall j | i <= j :: !TzidAt(p, j)
    decreases |p| - i
  {
    if i + 5 >= |p| then None
    else if TzidAt(p, i) then Some(i)
    else FirstTzid(p, i + 1)
  }

  /** The captured TZID of a property name with its parameters, verbatim. */
  function TzidParam(props: string): (r: Option<string>)
    ensures r.Some? ==> r.value != [] && forall i | 0 <= i < |r.value| :: !TzidStop(r.value[i])
    ensures r.None? <==> forall j :: !TzidAt(props, j)
  {
    match FirstTzid(props, 0)
    case None => None
    case Some(i) =>
      var v := StopPrefix(props[i + 5..]);
      assert v != [] by {
        assert props[i + 5..][0] == props[i + 5];
      }
      Some(v)
  }

  /** The instant of a date value read at midnight in a zone. */
  function DateAt(offset: int, v: string): (r: Option<int>)
    ensures r.Some? <==> ReadYmd(v).Some?
    ensures r.Some? ==> LocalDay(offset, r.value) == ReadYmd(v).value && MsOfDay(offset, r.value) == 0
  {
    match ReadYmd(v)
    case Some(day) =>
      LocalOfInstant(offset, day, 0);
      Some(StartOfDay(offset, day))
    case None => None
  }


  /** The instant of a `yyyyMMdd'T'HHmmss` value read in a zone. */
  function StampAt(offset: int, v: string): (r: Option<int>)
    ensures r.Some? <==> ReadStamp(v).Some?
  {
    match ReadStamp(v)
    case Some((day, sec)) => Some(StampInstant(offset, day, sec))
    case None => None
  }

  /** The classification once the line is cut at its first ':', with the test for an
      explicit date and the offset a floating bare date is read in as parameters:
      an explicit date reads in UTC; a value ending in 'Z' is UTC; a value with a
      known TZID is read in that zone; eight digits without 'T' are a floating date;
      anything else is a floating time in the browser's zone. */
  function Classify(env: Env, props: string, value: string, explicitDate: bool, floatingDateOffset: int): (r: Stamp)
    requires env.Valid()
    ensures r.tzid == TzidParam(props)
    ensures r.allDay <==>
              (explicitDate
               || (!EndsWith(value, "Z") && !(r.tzid.Some? && env.Offset(r.tzid.value).Some?)
                   && 'T' !in value && |value| == 8 && AllDigits(value)))
    ensures r.allDay && r.instant.Some? ==>
              MsOfDay(if explicitDate then 0 else floatingDateOffset, r.instant.value) == 0
  {
    var tzid := TzidParam(props);
    if explicitDate then Stamp(DateAt(0, value), true, tzid)
    else if EndsWith(value, "Z") then Stamp(StampAt(0, value[..|value| - 1]), false, tzid)
    else if tzid.Some? && env.Offset(tzid.value).Some? then Stamp(StampAt(env.Offset(tzid.value).value, value), false, tzid)
    else if 'T' !in value && |value| == 8 && AllDigits(value) then Stamp(DateAt(floatingDateOffset, value), true, tzid)
    else Stamp(StampAt(env.LocalOffset(), value), false, tzid)
  }

  /** `parseIcsDateTime` as written: a line without ':' is an all-day null; the
      parameters count as a DATE whenever they contain `VALUE=DATE`, and a floating
      bare date is read at midnight in the browser's zone. */
  function ParseIcsDateTimeAsWritten(env: Env, line: string): (r: Stamp)
    requires env.Valid()
    ensures ':' !in line ==> r == Stamp(None, true, None)
  {
    match Find(line, ':')
    case None => Stamp(None, true, None)
    case Some(k) => Classify(env, line[..k], line[k + 1..], Contains(line[..k], DateParam), env.LocalOffset())
  }

  /** `parseIcsDateTime` with both faults corrected: `VALUE=DATE-TIME` does not mark
      a date, and a floating bare date is read in UTC like an explicit one, so the
      calendar date the importer takes from the UTC instant is the date written. */
  function ParseIcsDateTime(env: Env, line: string): (r: Stamp)
    requires env.Valid()
    ensures ':' !in line ==> r == Stamp(None, true, None)
    ensures r.instant.Some? && r.allDay ==> MsOfDay(0, r.instant.value) == 0
  {
    match Find(line, ':')
    case None => Stamp(None, true, None)
    case Some(k) =>
      var props := line[..k];
      Classify(env, props, line[k + 1..], Contains(props, DateParam) && !Contains(props, DateTimeParam), 0)
  }

  // ---- searching lemmas ----

  /** A value that reads as a date, where it is classified as one, is its UTC
      midnight when the date is explicit or floating dates are read in UTC. */
  lemma ClassifyDate(env: Env, props: string, v: string, explicitDate: bool, floatingDateOffset: int)
    requires env.Valid() && ReadYmd(v).Some? && (explicitDate || TzidParam(props).None?)
    requires explicitDate || floatingDateOffset == 0
    ensures Classify(env, props, v, explicitDate, floatingDateOffset) == Stamp(Some(ReadYmd(v).value * DayMs), true, TzidParam(props))
  {
    DigitsOnly(v);
  }

  /** A line is cut at the first ':' after a parameter list without one. */
  lemma ParseOfParts(env: Env, props: string, value: string)
    requires env.Valid() && ':' !in props
    ensures ParseIcsDateTime(env, props + ":" + value)
            == Classify(env, props, value, Contains(props, DateParam) && !Contains(props, DateTimeParam), 0)
    ensures ParseIcsDateTimeAsWritten(env, props + ":" + value)
            == Classify(env, props, value, Contains(props, DateParam), env.LocalOffset())
  {
    var line := props + ":" + value;
    assert line == props + (":" + value);
    FindAfter(props, ":" + value, ':');
    assert line[..|props|] == props && line[|props| + 1..] == value;
  }

  /** A text cannot occur where one of its characters does not. */
  lemma NotContainedWithout(s: string, t: string, k: nat)
    requires k < |t| && t[k] !in s
    ensures !Contains(s, t)
  {
    forall i | 0 <= i <= |s| ensures !OccursAt(s, t, i) {
      if i + |t| <= |s| {
        assert s[i + k] in s;
        assert s[i..i + |t|][k] == s[i + k];
      }
    }
  }

  /** Without a 'Z' there is no TZID parameter. */
  lemma NoTzidWithoutZ(p: string)
    requires 'Z' !in p && 'z' !in p
    ensures TzidParam(p).None?
  {
    forall j ensures !TzidAt(p, j) {
      if 0 <= j && j + 5 < |p| {
        assert p[j + 1] in p;
      }
    }
  }

  lemma DateParamIn(name: string)
    ensures Contains(name + ";" + DateParam, DateParam)
  {
    var s := name + ";" + DateParam;
    assert OccursAt(s, DateParam, |name| + 1) by {
      assert s[|name| + 1..] == DateParam;
    }
  }

  /** A TZID parameter after a prefix without 'Z' is captured whole. */
  lemma TzidAfter(a: string, z: string)
    requires 'Z' !in a && 'z' !in a && z != [] && forall i | 0 <= i < |z| :: !TzidStop(z[i])
    ensures TzidParam(a + ";TZID=" + z) == Some(z)
  {
    var p := a + ";TZID=" + z;
    var k := |a| + 1;
    assert p[k..k + 5] == "TZID=" && p[k + 5] == z[0];
    assert TzidAt(p, k);
    forall j | 0 <= j < k ensures !TzidAt(p, j) {
      if j + 1 < |a| {
        assert p[j + 1] == a[j + 1];
        assert a[j + 1] in a;
      } else if j + 1 == |a| {
        assert p[j + 1] == ';';
      } else {
        assert p[j + 1] == 'T';
      }
    }
    var r := FirstTzid(p, 0);
    assert r == Some(k);
    assert p[k + 5..] == z;
    assert StopPrefix(z) == z;
  }

  /** A DATE marker after a prefix without 'V' lies inside the suffix. */
  lemma NoDateParamAfter(a: string, z: string)
    requires 'V' !in a && !Contains(z, DateParam)
    ensures !Contains(a + z, DateParam)
  {
    var p := a + z;
    forall i | 0 <= i <= |p| ensures !OccursAt(p, DateParam, i) {
      if i + |DateParam| <= |p| {
        if i < |a| {
          assert p[i] == a[i] && a[i] in a;
          assert p[i..i + |DateParam|][0] == p[i];
        } else {
          assert p[i..i + |DateParam|] == z[i - |a|..i - |a| + |DateParam|];
          assert !OccursAt(z, DateParam, i - |a|);
        }
      }
    }
  }

  /** A digit string has no 'T' and does not end in 'Z'. */
  lemma DigitsOnly(v: string)
    requires AllDigits(v) && |v| > 0
    ensures 'T' !in v && !EndsWith(v, "Z")
  {
    assert IsDigit(v[|v| - 1]);
    forall i | 0 <= i < |v| ensures v[i] != 'T' {
      assert IsDigit(v[i]);
    }
  }

  // ---- round trips ----

  /** A property name the export writes: no ':', ';', 'Z', 'z', 'V' or '-'. */
  predicate PlainName(name: string) {
    ':' !in name && ';' !in name && 'Z' !in name && 'z' !in name && 'V' !in name && '-' !in name
  }

  /** A zone name that can stand as a TZID: not empty, no stop character, and not
      containing the DATE marker. */
  predicate TzidName(z: string) {
    z != [] && (forall i | 0 <= i < |z| :: !TzidStop(z[i])) && !Contains(z, DateParam)
  }

  /** The parameters of an exported all-day line mark a DATE and carry no TZID. */
  lemma AllDayProps(name: string)
    requires PlainName(name)
    ensures var props := name + ";" + DateParam;
            ':' !in props && Contains(props, DateParam) && !Contains(props, DateTimeParam) && TzidParam(props).None?
  {
    var props := name + ";" + DateParam;
    DateParamIn(name);
    forall j | 0 <= j < |props| ensures props[j] !in "-:Zz" {
      if j >= |name| + 1 {
        assert props[j] == DateParam[j - |name| - 1];
      }
    }
    assert DateTimeParam[10] == '-';
    NotContainedWithout(props, DateTimeParam, 10);
    NoTzidWithoutZ(props);
  }

  /** An all-day value written for a day reads back as that day at UTC midnight. */
  lemma AllDayRoundTrip(env: Env, name: string, seen: Seen)
    requires env.Valid() && PlainName(name) && FourDigitYear(LocalDay(seen.offset, seen.ms))
    ensures var day := LocalDay(seen.offset, seen.ms);
            ParseIcsDateTime(env, name + ";" + FormatIcsDateTime(env, Some(seen), true, None))
            == Stamp(Some(day * DayMs), true, None)
            == ParseIcsDateTimeAsWritten(env, name + ";" + FormatIcsDateTime(env, Some(seen), true, None))
  {
    var day := LocalDay(seen.offset, seen.ms);
    assert name + ";" + FormatIcsDateTime(env, Some(seen), true, None) == name + ";" + DateParam + ":" + Ymd(FromDays(day));
    DateRoundTrip(env, name, day);
  }

  /** The date line of a day reads back as that day's UTC midnight. */
  lemma DateRoundTrip(env: Env, name: string, day: int)
    requires env.Valid() && PlainName(name) && FourDigitYear(day)
    ensures ParseIcsDateTime(env, name + ";" + DateParam + ":" + Ymd(FromDays(day))) == Stamp(Some(day * DayMs), true, None)
    ensures ParseIcsDateTimeAsWritten(env, name + ";" + DateParam + ":" + Ymd(FromDays(day))) == Stamp(Some(day * DayMs), true, None)
  {
    var v := Ymd(FromDays(day));
    var props := name + ";" + DateParam;
    AllDayProps(name);
    ParseOfParts(env, props, v);
    ReadYmdOfYmd(day);
    ClassifyDate(env, props, v, true, 0);
    ClassifyDate(env, props, v, true, env.LocalOffset());
  }

  /** A timed value written in UTC reads back as the instant to the second. */
  lemma UtcRoundTrip(env: Env, name: string, seen: Seen)
    requires env.Valid() && PlainName(name) && FourDigitYear(LocalDay(0, seen.ms))
    ensures ParseIcsDateTime(env, name + ":" + FormatIcsDateTime(env, Some(seen), false, None))
            == Stamp(Some(TruncSecond(seen.ms)), false, None)
            == ParseIcsDateTimeAsWritten(env, name + ":" + FormatIcsDateTime(env, Some(seen), false, None))
  {
    var v := StampText(0, seen.ms) + "Z";
    ParseOfParts(env, name, v);
    assert 'V' !in name;
    NotContainedWithout(name, DateParam, 0);
    NoTzidWithoutZ(name);
    assert EndsWith(v, "Z");
    assert v[..|v| - 1] == StampText(0, seen.ms);
    ReadStampOfStampText(0, seen.ms);
  }

  /** A timed value written in a known TZID reads back as the instant to the second,
      with the zone name captured. */
  lemma ZonedRoundTrip(env: Env, name: string, z: string, seen: Seen)
    requires env.Valid() && PlainName(name) && TzidName(z) && env.Offset(z).Some?
    requires FourDigitYear(LocalDay(env.Offset(z).value, seen.ms))
    ensures ParseIcsDateTime(env, name + ";TZID=" + z + ":" + FormatIcsDateTime(env, Some(seen), false, Some(z)))
            == Stamp(Some(TruncSecond(seen.ms)), false, Some(z))
            == ParseIcsDateTimeAsWritten(env, name + ";TZID=" + z + ":" + FormatIcsDateTime(env, Some(seen), false, Some(z)))
  {
    var off := env.Offset(z).value;
    var v := StampText(off, seen.ms);
    var props := name + ";TZID=" + z;
    ZonedProps(name, z);
    ParseOfParts(env, props, v);
    assert !EndsWith(v, "Z") by {
      assert v[|v| - 1] == Hms(MsOfDay(off, seen.ms) / SecondMs)[5];
    }
    ReadStampOfStampText(off, seen.ms);
    assert Classify(env, props, v, false, 0) == Stamp(StampAt(off, v), false, Some(z));
    assert Classify(env, props, v, false, env.LocalOffset()) == Stamp(StampAt(off, v), false, Some(z));
  }

  /** The parameters of an exported zoned line carry the zone as TZID and do not
      mark a DATE. */
  lemma ZonedProps(name: string, z: string)
    requires PlainName(name) && TzidName(z)
    ensures var props := name + ";TZID=" + z;
            ':' !in props && TzidParam(props) == Some(z) && !Contains(props, DateParam)
  {
    var props := name + ";TZID=" + z;
    forall i | 0 <= i < |props| ensures props[i] != ':' {
      if i >= |name| + 6 {
        assert props[i] == z[i - |name| - 6];
      }
    }
    TzidAfter(name, z);
    NoDateParamAfter(name + ";TZID=", z);
  }

  // ---- the two faults ----

  /** As written, a floating bare date in a browser zone east of UTC is read at local
      midnight, which is the day before in UTC: the importer then stores the
      previous day. */
  lemma FloatingDateShiftsEast(env: Env, props: string, day: int)
    requires env.Valid() && 0 < env.LocalOffset() < MinutesPerDay && FourDigitYear(day)
    requires ':' !in props && !Contains(props, DateParam)
    requires TzidParam(props).None?
    ensures var r := ParseIcsDateTimeAsWritten(env, props + ":" + Ymd(FromDays(day)));
            r.allDay && r.instant.Some? && LocalDay(0, r.instant.value) == day - 1
  {
    var v := Ymd(FromDays(day));
    ParseOfParts(env, props, v);
    ReadYmdOfYmd(day);
    DigitsOnly(v);
    var t := StartOfDay(env.LocalOffset(), day);
    assert t == day * DayMs - env.LocalOffset() * MinuteMs;
    assert (day - 1) * DayMs <= t < day * DayMs;
  }

  /** The corrected reading keeps the date written. */
  lemma FloatingDateKeepsDay(env: Env, props: string, day: int)
    requires env.Valid() && FourDigitYear(day)
    requires ':' !in props && !Contains(props, DateParam)
    requires TzidParam(props).None?
    ensures var r := ParseIcsDateTime(env, props + ":" + Ymd(FromDays(day)));
            r.allDay && r.instant == Some(day * DayMs) && LocalDay(0, r.instant.value) == day
  {
    var v := Ymd(FromDays(day));
    ParseOfParts(env, props, v);
    ReadYmdOfYmd(day);
    ClassifyDate(env, props, v, false, 0);
  }

  lemma DateTimeParamHasDateParam(props: string)
    requires Contains(props, DateTimeParam)
    ensures Contains(props, DateParam)
  {
    var i :| 0 <= i <= |props| && OccursAt(props, DateTimeParam, i);
    assert props[i..i + |DateParam|] == props[i..i + |DateTimeParam|][..|DateParam|];
    assert OccursAt(props, DateParam, i);
  }

  /** As written, an explicit `VALUE=DATE-TIME` parameter makes a UTC date-time read
      as a date, which fails: the event is dropped for want of a start. */
  lemma DateTimeParamDropsValue(env: Env, props: string, t: int)
    requires env.Valid() && ':' !in props && Contains(props, DateTimeParam)
    ensures ParseIcsDateTimeAsWritten(env, props + ":" + StampText(0, t) + "Z").instant.None?
  {
    var v := StampText(0, t) + "Z";
    assert props + ":" + StampText(0, t) + "Z" == props + ":" + v;
    ParseOfParts(env, props, v);
    DateTimeParamHasDateParam(props);
    assert |v| != 8 by {
      assert |Hms(MsOfDay(0, t) / SecondMs)| == 6;
    }
    assert ReadYmd(v).None?;
    assert Classify(env, props, v, true, env.LocalOffset()).instant.None?;
  }

  /** The corrected reading takes the same line as the instant written. */
  lemma DateTimeParamReadsValue(env: Env, props: string, t: int)
    requires env.Valid() && ':' !in props && Contains(props, DateTimeParam) && FourDigitYear(LocalDay(0, t))
    ensures ParseIcsDateTime(env, props + ":" + StampText(0, t) + "Z").instant == Some(TruncSecond(t))
  {
    var v := StampText(0, t) + "Z";
    assert props + ":" + StampText(0, t) + "Z" == props + ":" + v;
    ParseOfParts(env, props, v);
    assert EndsWith(v, "Z");
    assert v[..|v| - 1] == StampText(0, t);
    ReadStampOfStampText(0, t);
    assert StampAt(0, StampText(0, t)) == Some(TruncSecond(t));
    assert Classify(env, props, v, false, 0).instant == Some(TruncSecond(t));
  }
}
