/** Proleptic Gregorian calendar arithmetic over integer day numbers, ISO weekdays and
    fixed-offset time zones. This stands in for the luxon library: a civil day is an
    integer (day 0 is 0001-01-01, a Monday), an instant is an integer count of
    milliseconds since 0001-01-01T00:00Z, and a zone is a fixed offset in minutes. */
module Civil {

  const SecondMs: int := 1000
  const MinuteMs: int := 60_000
  const HourMs: int := 3_600_000
  const DayMs: int := 86_400_000
  const MinutesPerDay: int := 1440

  datatype Date = Date(year: int, month: int, day: int)

  predicate IsLeap(y: int) {
    y % 4 == 0 && (y % 100 != 0 || y % 400 == 0)
  }

  function YearLength(y: int): int {
    if IsLeap(y) then 366 else 365
  }

  function DaysInMonth(y: int, m: int): int
    requires 1 <= m <= 12
  {
    if m == 2 then (if IsLeap(y) then 29 else 28)
    else if m == 4 || m == 6 || m == 9 || m == 11 then 30
    else 31
  }

  predicate ValidDate(d: Date) {
    1 <= d.month <= 12 && 1 <= d.day <= DaysInMonth(d.year, d.month)
  }

  /** Days from 0001-01-01 to January 1 of year `y`. */
  function DaysBeforeYear(y: int): int {
    var k := y - 1;
    365 * k + k / 4 - k / 100 + k / 400
  }

  /** Days from January 1 to the first of month `m` of year `y`. */
  function DaysBeforeMonth(y: int, m: int): int
    requires 1 <= m <= 12
  {
    var common := [0, 31, 59, 90, 120, 151, 181, 212, 243, 273, 304, 334][m - 1];
    common + (if m > 2 && IsLeap(y) then 1 else 0)
  }

  /** The day number of a calendar date. */
  function ToDays(d: Date): int
    requires ValidDate(d)
  {
    DaysBeforeYear(d.year) + DaysBeforeMonth(d.year, d.month) + d.day - 1
  }

  lemma NextYearStart(y: int)
    ensures DaysBeforeYear(y + 1) == DaysBeforeYear(y) + YearLength(y)
  {
    var k := y - 1;
    assert y / 4 - k / 4 == (if y % 4 == 0 then 1 else 0);
    assert y / 100 - k / 100 == (if y % 100 == 0 then 1 else 0);
    assert y / 400 - k / 400 == (if y % 400 == 0 then 1 else 0);
  }

  lemma MonthBoundaries(y: int, m: int)
    requires 1 <= m <= 12
    ensures DaysBeforeMonth(y, m) + DaysInMonth(y, m)
            == if m == 12 then YearLength(y) else DaysBeforeMonth(y, m + 1)
  {
  }

  function YearUp(n: int, y: int): (r: int)
    requires DaysBeforeYear(y) <= n
    ensures DaysBeforeYear(r) <= n < DaysBeforeYear(r + 1)
    decreases n - DaysBeforeYear(y)
  {
    NextYearStart(y);
    if n < DaysBeforeYear(y + 1) then y else YearUp(n, y + 1)
  }

  function YearDown(n: int, y: int): (r: int)
    ensures DaysBeforeYear(r) <= n < DaysBeforeYear(r + 1)
    decreases DaysBeforeYear(y) - n
  {
    NextYearStart(y - 1);
    if DaysBeforeYear(y) <= n then YearUp(n, y) else YearDown(n, y - 1)
  }

  function MonthOf(y: int, doy: int, m: int): (r: int)
    requires 1 <= m <= 12 && 0 <= doy < YearLength(y)
    requires m == 12 || doy < DaysBeforeMonth(y, m + 1)
    ensures 1 <= r <= m
    ensures DaysBeforeMonth(y, r) <= doy < DaysBeforeMonth(y, r) + DaysInMonth(y, r)
    decreases m
  {
    MonthBoundaries(y, m);
    if m == 1 || DaysBeforeMonth(y, m) <= doy then m else MonthOf(y, doy, m - 1)
  }

  /** The calendar date of a day number. */
  function FromDays(n: int): (d: Date)
    ensures ValidDate(d) && ToDays(d) == n
  {
    var y := YearDown(n, n / 366 + 1);
    NextYearStart(y);
    var doy := n - DaysBeforeYear(y);
    var m := MonthOf(y, doy, 12);
    Date(y, m, doy - DaysBeforeMonth(y, m) + 1)
  }

  lemma {:induction false} DaysBeforeYearMonotone(a: int, b: int)
    requires a <= b
    ensures DaysBeforeYear(a) <= DaysBeforeYear(b)
    decreases b - a
  {
    if a < b {
      NextYearStart(a);
      DaysBeforeYearMonotone(a + 1, b);
    }
  }

  lemma MonthUnique(y: int, m1: int, m2: int, doy: int)
    requires 1 <= m1 <= 12 && 1 <= m2 <= 12
    requires DaysBeforeMonth(y, m1) <= doy < DaysBeforeMonth(y, m1) + DaysInMonth(y, m1)
    requires DaysBeforeMonth(y, m2) <= doy < DaysBeforeMonth(y, m2) + DaysInMonth(y, m2)
    ensures m1 == m2
  {
  }

  lemma DayOfYearBound(d: Date)
    requires ValidDate(d)
    ensures 0 <= DaysBeforeMonth(d.year, d.month) + d.day - 1 < YearLength(d.year)
  {
  }

  lemma YearUnique(n: int, y1: int, y2: int)
    requires DaysBeforeYear(y1) <= n < DaysBeforeYear(y1 + 1)
    requires DaysBeforeYear(y2) <= n < DaysBeforeYear(y2 + 1)
    ensures y1 == y2
  {
    if y1 < y2 {
      DaysBeforeYearMonotone(y1 + 1, y2);
    } else if y2 < y1 {
      DaysBeforeYearMonotone(y2 + 1, y1);
    }
  }

  /** Day numbering is a bijection: every valid date is recovered from its day number. */
  lemma FromDaysToDays(d: Date)
    requires ValidDate(d)
    ensures FromDays(ToDays(d)) == d
  {
    var n := ToDays(d);
    var e := FromDays(n);
    NextYearStart(d.year);
    NextYearStart(e.year);
    DayOfYearBound(d);
    DayOfYearBound(e);
    YearUnique(n, d.year, e.year);
    MonthUnique(d.year, d.month, e.month, n - DaysBeforeYear(d.year));
  }

  /** Two day numbers with the same calendar date are equal. */
  lemma FromDaysInjective(a: int, b: int)
    ensures FromDays(a) == FromDays(b) <==> a == b
  {
  }

  /** ISO weekday, Monday = 1 ... Sunday = 7. */
  function IsoWeekday(n: int): (w: int)
    ensures 1 <= w <= 7
  {
    n % 7 + 1
  }

  /** Weekdays cycle Monday to Sunday. */
  lemma NextWeekday(n: int)
    ensures IsoWeekday(n + 1) == if IsoWeekday(n) == 7 then 1 else IsoWeekday(n) + 1
  {
    var q := n / 7;
    assert n == 7 * q + n % 7;
    if n % 7 == 6 {
      assert n + 1 == 7 * (q + 1);
    } else {
      assert n + 1 == 7 * q + (n % 7 + 1);
    }
  }

  /** The Sunday that ends the Monday-start week containing day `n` (luxon's `endOf("week")`). */
  function WeekEnd(n: int): (r: int)
    ensures n <= r < n + 7 && IsoWeekday(r) == 7
    ensures r - n == 7 - IsoWeekday(n)
  {
    n + (7 - IsoWeekday(n))
  }

  /** Every day up to the end of a week belongs to that same week. */
  lemma SameWeek(n: int, d: int)
    requires n <= d <= WeekEnd(n)
    ensures WeekEnd(d) == WeekEnd(n)
  {
    var q := n / 7;
    assert n == 7 * q + n % 7;
    assert d == 7 * q + (n % 7 + (d - n));
    assert d % 7 == n % 7 + (d - n);
  }

  // ---- fixed-offset zones ----

  /** The instant shifted to wall-clock milliseconds of a zone with the given offset. */
  function LocalMs(offset: int, t: int): int {
    t + offset * MinuteMs
  }

  /** The local civil day of an instant. */
  function LocalDay(offset: int, t: int): int {
    LocalMs(offset, t) / DayMs
  }

  /** Milliseconds since local midnight. */
  function MsOfDay(offset: int, t: int): (r: int)
    ensures 0 <= r < DayMs
  {
    LocalMs(offset, t) % DayMs
  }

  /** The local "HH:mm" reading of an instant as a minute of the day. */
  function MinuteOfDay(offset: int, t: int): (r: int)
    ensures 0 <= r < MinutesPerDay
  {
    MsOfDay(offset, t) / MinuteMs
  }

  /** The instant of local day `day` at minute `minute` (seconds zero). */
  function ToInstant(offset: int, day: int, minute: int): int {
    day * DayMs + minute * MinuteMs - offset * MinuteMs
  }

  /** luxon `startOf("day")`. */
  function StartOfDay(offset: int, day: int): int {
    ToInstant(offset, day, 0)
  }

  /** luxon `endOf("day")`: 23:59:59.999 local time. */
  function EndOfDay(offset: int, day: int): int {
    StartOfDay(offset, day) + DayMs - 1
  }

  /** Reading a local wall-clock time back from its instant recovers it. */
  lemma LocalOfInstant(offset: int, day: int, minute: int)
    requires 0 <= minute < MinutesPerDay
    ensures LocalDay(offset, ToInstant(offset, day, minute)) == day
    ensures MsOfDay(offset, ToInstant(offset, day, minute)) == minute * MinuteMs
    ensures MinuteOfDay(offset, ToInstant(offset, day, minute)) == minute
  {
    var l := LocalMs(offset, ToInstant(offset, day, minute));
    assert l == day * DayMs + minute * MinuteMs;
  }

  /** An instant lies inside the local day that `LocalDay` names. */
  lemma InstantInLocalDay(offset: int, t: int)
    ensures StartOfDay(offset, LocalDay(offset, t)) <= t <= EndOfDay(offset, LocalDay(offset, t))
    ensures t == StartOfDay(offset, LocalDay(offset, t)) + MsOfDay(offset, t)
  {
  }

  lemma LocalDayMonotone(offset: int, t1: int, t2: int)
    requires t1 <= t2
    ensures LocalDay(offset, t1) <= LocalDay(offset, t2)
  {
  }

  /** One day later is the same wall-clock time on the next local day. */
  lemma NextDaySameClock(offset: int, t: int)
    ensures LocalDay(offset, t + DayMs) == LocalDay(offset, t) + 1
    ensures MsOfDay(offset, t + DayMs) == MsOfDay(offset, t)
    ensures MinuteOfDay(offset, t + DayMs) == MinuteOfDay(offset, t)
  {
    assert LocalMs(offset, t + DayMs) == LocalMs(offset, t) + DayMs;
  }

  /** A day's local bounds map to that day. */
  lemma DayBounds(offset: int, day: int)
    ensures LocalDay(offset, StartOfDay(offset, day)) == day
    ensures LocalDay(offset, EndOfDay(offset, day)) == day
  {
    LocalOfInstant(offset, day, 0);
  }
}
