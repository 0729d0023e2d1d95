/** Calendar event records and the renderer's first pass over them
    (`renderEventVisuals`): every stored event is resolved to a pair of instants,
    an all-day flag and the start and end fractions of its local day, and the
    survivors are sorted into the order in which the layouts place them. */
module Events {
  import opened Wrappers
  import opened Civil
  import opened Text
  import opened TimeText
  import opened Sorting

  /** A stored event. `start`/`end` are civil days (`yyyy-MM-dd` strings in storage),
      `startUtc`/`endUtc` instants in milliseconds (ISO strings in storage); a field
      that is absent or empty is `Missing`, one that does not parse is `Malformed`. */
  datatype Event = Event(
    id: string,
    name: string,
    description: string,
    location: string,
    color: string,
    start: Field<int>,
    end: Field<int>,
    time: Option<string>,
    endTime: Option<string>,
    startTimezone: Option<string>,
    endTimezone: Option<string>,
    startUtc: Field<int>,
    endUtc: Field<int>,
    rrule: Option<string>)

  /** The time-zone environment: the offsets (in minutes) of the zone names luxon
      accepts, and the browser's own zone, which every view displays in. */
  datatype Env = Env(zones: map<string, int>, local: string) {
    predicate Valid() {
      local in zones
    }

    function LocalOffset(): int
      requires Valid()
    {
      zones[local]
    }

    /** luxon's `setZone(name)`: an unknown name yields an invalid DateTime. */
    function Offset(name: string): Option<int> {
      if name in zones then Some(zones[name]) else None
    }
  }

  /** An event after resolution. Instants are milliseconds. For a timed event the
      fractions are minutes of the local day (1440 is the end of the day); for an
      all-day event they are 0 and 1440, the values every layout uses for it. */
  datatype Resolved = Resolved(event: Event, startMs: int, endMs: int, allDay: bool, startFrac: int, endFrac: int)
  {
    function Duration(): int {
      endMs - startMs
    }
  }

  /** The end fraction of a timed event whose local start and end are `s <= e`:
      a span ending at local midnight on a later day ends at 1.0, and a span on a
      single day that would have no width gets five minutes, capped at the day end. */
  function EndFraction(offset: int, s: int, e: int): (r: int)
    requires s <= e
    ensures MinuteOfDay(offset, e) <= r <= MinutesPerDay
    ensures LocalDay(offset, s) != LocalDay(offset, e) && MinuteOfDay(offset, e) == 0 ==> r == MinutesPerDay
    ensures LocalDay(offset, s) == LocalDay(offset, e) && s < e ==>
              MinuteOfDay(offset, s) < r
              && (r != MinuteOfDay(offset, e) ==>
                    MinuteOfDay(offset, e) <= MinuteOfDay(offset, s) && r == Min(MinuteOfDay(offset, s) + 5, MinutesPerDay))
    ensures s == e ==> r == MinuteOfDay(offset, s)
  {
    var sameDay := LocalDay(offset, s) == LocalDay(offset, e);
    var sf := MinuteOfDay(offset, s);
    var em := MinuteOfDay(offset, e);
    LocalDayMonotone(offset, s, e);
    if em == 0 && !sameDay then MinutesPerDay
    else if em <= sf && sameDay && s != e then
      Min(sf + 5, MinutesPerDay)
    else em
  }

  /** Resolution of one stored event; None where the renderer drops it. */
  function Resolve(env: Env, e: Event): (r: Option<Resolved>)
    requires env.Valid()
    ensures r.Some? <==>
              e.start.Truthy() && e.end.Truthy()
              && (if e.startUtc.Truthy() then e.startUtc.Present? && e.endUtc.Present?
                  else e.start.Present? && e.end.Present?)
    ensures r.Some? ==> r.value.event == e
    ensures r.Some? ==> (r.value.allDay <==> !e.startUtc.Truthy())
    ensures r.Some? ==> r.value.startMs <= r.value.endMs
    ensures r.Some? && r.value.allDay ==>
              r.value.startMs == StartOfDay(env.LocalOffset(), e.start.value)
              && r.value.endMs == Max(r.value.startMs, EndOfDay(env.LocalOffset(), e.end.value))
    ensures r.Some? && !r.value.allDay ==>
              r.value.startMs == e.startUtc.value && r.value.endMs == Max(e.startUtc.value, e.endUtc.value)
  {
    var off := env.LocalOffset();
    if !e.start.Truthy() || !e.end.Truthy() then None
    else if !e.startUtc.Truthy() then
      match (e.start, e.end)
      case (Present(startDay), Present(endDay)) =>
        var s := StartOfDay(off, startDay);
        Some(Resolved(e, s, Max(s, EndOfDay(off, endDay)), true, 0, MinutesPerDay))
      case _ => None
    else
      match (e.startUtc, e.endUtc)
      case (Present(s), Present(t)) =>
        var endMs := Max(s, t);
        Some(Resolved(e, s, endMs, false, MinuteOfDay(off, s), EndFraction(off, s, endMs)))
      case _ => None
  }

  function Max(a: int, b: int): int {
    if a < b then b else a
  }

  function Min(a: int, b: int): int {
    if a < b then a else b
  }

  /** The fractions agree with what the renderer reads back from the local "HH:mm"
      text: the start fraction is `timeToFraction` of the start's clock text, and the
      end's clock text is "00:00" exactly when its minute of the day is 0. */
  lemma FractionsMatchClockText(env: Env, e: Event)
    requires env.Valid() && Resolve(env, e).Some? && !Resolve(env, e).value.allDay
    ensures var r := Resolve(env, e).value;
            TimeToFraction(FormatHHmm(MinuteOfDay(env.LocalOffset(), r.startMs))) == Some(r.startFrac)
            && (FormatHHmm(MinuteOfDay(env.LocalOffset(), r.endMs)) == "00:00" <==> MinuteOfDay(env.LocalOffset(), r.endMs) == 0)
  {
    var r := Resolve(env, e).value;
    FractionOfFormat(MinuteOfDay(env.LocalOffset(), r.startMs));
    MidnightText(MinuteOfDay(env.LocalOffset(), r.endMs));
  }

  /** Resolves every event and keeps the survivors in their stored order
      (`map` followed by `filter(Boolean)`). */
  function ResolveAll(env: Env, events: seq<Event>): (rs: seq<Resolved>)
    requires env.Valid()
    ensures |rs| <= |events|
    ensures forall r :: r in rs ==> r.event in events && Resolve(env, r.event) == Some(r)
    ensures forall e :: e in events && Resolve(env, e).Some? ==> Resolve(env, e).value in rs
  {
    if events == [] then []
    else
      var rest := ResolveAll(env, events[1..]);
      assert forall e :: e in events && e != events[0] ==> e in events[1..];
      match Resolve(env, events[0])
      case None => rest
      case Some(r) => [r] + rest
  }

  /** Resolving a list is resolving its parts in turn: the survivors keep the
      stored order. */
  lemma {:induction false} ResolveAllAppend(env: Env, a: seq<Event>, b: seq<Event>)
    requires env.Valid()
    ensures ResolveAll(env, a + b) == ResolveAll(env, a) + ResolveAll(env, b)
    decreases |a|
  {
    if a == [] {
      assert a + b == b;
    } else {
      assert (a + b)[0] == a[0] && (a + b)[1..] == a[1..] + b;
      ResolveAllAppend(env, a[1..], b);
    }
  }

  /** One event resolves to itself resolved, or to nothing. */
  lemma ResolveAllSingle(env: Env, e: Event)
    requires env.Valid()
    ensures ResolveAll(env, [e]) == if Resolve(env, e).Some? then [Resolve(env, e).value] else []
  {
    assert [e][1..] == [];
  }

  // ---- sort ----

  /** The comparator of the renderer's sort: negative when `a` goes first. */
  function Compare(a: Resolved, b: Resolved): int {
    if a.startMs != b.startMs then a.startMs - b.startMs
    else if a.allDay && !b.allDay then -1
    else if !a.allDay && b.allDay then 1
    else b.Duration() - a.Duration()
  }

  /** The order the comparator describes: earlier start first, then all-day before
      timed, then the longer event first. */
  predicate EventOrder(a: Resolved, b: Resolved) {
    a.startMs < b.startMs
    || (a.startMs == b.startMs
        && ((a.allDay && !b.allDay) || (a.allDay == b.allDay && a.Duration() >= b.Duration())))
  }

  /** The comparator is consistent: it orders `a` no later than `b` exactly when it
      does not return a positive number, and it is antisymmetric. */
  lemma CompareIsEventOrder(a: Resolved, b: Resolved)
    ensures EventOrder(a, b) <==> Compare(a, b) <= 0
    ensures Compare(a, b) == 0 <==> Compare(b, a) == 0
    ensures Compare(a, b) < 0 <==> Compare(b, a) > 0
  {
  }

  lemma EventOrderIsTotalPreorder()
    ensures TotalPreorder(EventOrder)
  {
  }

  /** The sorted list the layouts consume: a stable sort by `EventOrder`. */
  function SortEvents(rs: seq<Resolved>): (sorted: seq<Resolved>)
    ensures SortedBy(sorted, EventOrder)
    ensures multiset(sorted) == multiset(rs)
  {
    EventOrderIsTotalPreorder();
    SortBy(rs, EventOrder)
  }

  /** The list `renderEventVisuals` hands to the month, year and week layouts. */
  function ProcessEvents(env: Env, events: seq<Event>): (rs: seq<Resolved>)
    requires env.Valid()
    ensures SortedBy(rs, EventOrder)
    ensures forall r :: r in rs ==> Resolve(env, r.event) == Some(r) && r.startMs <= r.endMs
    ensures forall e :: e in events && Resolve(env, e).Some? ==> Resolve(env, e).value in rs
  {
    var resolved := ResolveAll(env, events);
    var sorted := SortEvents(resolved);
    assert forall r :: r in sorted <==> r in resolved by {
      forall r ensures r in sorted <==> r in resolved {
        assert r in sorted <==> r in multiset(sorted);
        assert r in resolved <==> r in multiset(resolved);
      }
    }
    sorted
  }

  // ---- the visual last day ----

  /** The last local day a month or year bar covers: the end's day, except that a
      timed event ending exactly at midnight (seconds included) on a later day stops
      the day before; never before the start's day. */
  function VisualLastDay(offset: int, r: Resolved): (d: int)
    requires r.startMs <= r.endMs
    ensures LocalDay(offset, r.startMs) <= d <= LocalDay(offset, r.endMs)
    ensures r.allDay ==> d == LocalDay(offset, r.endMs)
    ensures (!r.allDay && MsOfDay(offset, r.endMs) < SecondMs && LocalDay(offset, r.startMs) != LocalDay(offset, r.endMs))
              ==> d == LocalDay(offset, r.endMs) - 1
    ensures (!r.allDay && !(MsOfDay(offset, r.endMs) < SecondMs && LocalDay(offset, r.startMs) != LocalDay(offset, r.endMs)))
              ==> d == LocalDay(offset, r.endMs)
  {
    var sDay := LocalDay(offset, r.startMs);
    var eDay := LocalDay(offset, r.endMs);
    LocalDayMonotone(offset, r.startMs, r.endMs);
    var last := if !r.allDay && MsOfDay(offset, r.endMs) < SecondMs && sDay != eDay then eDay - 1 else eDay;
    if last < sDay then sDay else last
  }
}
