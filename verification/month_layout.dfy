/** Lane allocation of event bars in the month and year views
    (`renderMonthYearViewEvents`). Events are placed one after another, each day of
    an event at the lowest of three levels whose registered slots on that day leave
    room for it; a placed bar extends to later days of the same Monday-based week
    while its level stays free, and a day with no free level counts one hidden event.

    The occupancy of a (day, level) cell is a list of slots, each a fraction interval
    of the day (minutes, 0..1440). The code checks the first day of a bar with the
    event's start fraction even when that day is not the event's first day, but
    registers such a day from fraction 0; `Rule` selects that behaviour (`AsWritten`)
    or the check that matches the registration (`Corrected`). */
module MonthLayout {
  import opened Wrappers
  import opened Civil
  import opened Events

  const MaxLevels: int := 3

  datatype Rule = AsWritten | Corrected

  /** The grid days of one month card (`firstGridDt` .. `lastGridDt`). */
  datatype Card = Card(first: int, last: int)

  /** What the layout needs of a resolved event, read in the display zone. */
  datatype Item = Item(
    id: string,
    allDay: bool,
    startDay: int,
    endDay: int,
    visualLast: int,
    startFrac: int,
    endFrac: int,
    instantaneous: bool)

  /** One occupied interval of a (day, level) cell. */
  datatype Slot = Slot(day: int, level: int, from: int, to: int, id: string, allDay: bool)

  /** A drawn bar: days `first`..`last` at one level. */
  datatype Segment = Segment(id: string, level: int, first: int, last: int)

  /** `levelsOccupiedPerDay`, `drawnEventDaySegments`, `hiddenEventsPerDay` and the
      bars drawn so far. */
  datatype Layout = Layout(slots: seq<Slot>, drawn: set<(string, int)>, hidden: multiset<int>, segments: seq<Segment>)

  const Empty: Layout := Layout([], {}, multiset{}, [])

  function ItemOf(offset: int, r: Resolved): Item
    requires r.startMs <= r.endMs
  {
    Item(r.event.id, r.allDay, LocalDay(offset, r.startMs), LocalDay(offset, r.endMs),
         VisualLastDay(offset, r), r.startFrac, r.endFrac, r.startMs == r.endMs)
  }

  /** The card keeps an event whose interval overlaps the card's (luxon
      `Interval.overlaps`: each starts before the other ends). */
  predicate InCard(offset: int, card: Card, r: Resolved) {
    r.endMs > StartOfDay(offset, card.first) && r.startMs < EndOfDay(offset, card.last)
  }

  // ---- intervals ----

  predicate Overlap(f1: int, t1: int, f2: int, t2: int) {
    Max(f1, f2) < Min(t1, t2)
  }

  /** Start fraction used when a bar is searched a level on day `d`. */
  function CheckFrom(rule: Rule, it: Item, d: int): int {
    if it.allDay then 0
    else if rule == AsWritten || d == it.startDay then it.startFrac
    else 0
  }

  /** Start fraction registered for day `d`. */
  function RegFrom(it: Item, d: int): int {
    if it.allDay then 0 else if d == it.startDay then it.startFrac else 0
  }

  /** End fraction on day `d`: the event's end fraction on its visual last day, else
      the end of the day. (The extension loop recomputes it from the end's clock text;
      `Events.EndFraction` shows that recomputation equals the resolved end fraction.) */
  function DayTo(it: Item, d: int): int {
    if it.allDay then MinutesPerDay else if d == it.visualLast then it.endFrac else MinutesPerDay
  }

  /** The interval of day `d` starting at `from`: a timed event lying on that one day
      with no width gets five minutes, and an instantaneous one is skipped (None). */
  function DayInterval(it: Item, d: int, from: int): Option<(int, int)> {
    var to := DayTo(it, d);
    if !it.allDay && d == it.startDay && d == it.endDay && to <= from then
      if it.instantaneous then None else Some((from, Min(from + 5, MinutesPerDay)))
    else Some((from, to))
  }

  function CheckInterval(rule: Rule, it: Item, d: int): Option<(int, int)> {
    DayInterval(it, d, CheckFrom(rule, it, d))
  }

  function RegInterval(it: Item, d: int): Option<(int, int)> {
    DayInterval(it, d, RegFrom(it, d))
  }

  /** A registered slot of cell (d, lvl) overlaps [from, to) and the interval is not
      empty (the first-day test). */
  predicate Conflict(slots: seq<Slot>, d: int, lvl: int, from: int, to: int) {
    exists i :: 0 <= i < |slots| && slots[i].day == d && slots[i].level == lvl
                && Overlap(from, to, slots[i].from, slots[i].to) && to > from
  }

  /** The test on a day the bar would extend to. */
  predicate ExtConflict(slots: seq<Slot>, d: int, lvl: int, allDay: bool, from: int, to: int) {
    exists i :: 0 <= i < |slots| && slots[i].day == d && slots[i].level == lvl
                && Overlap(from, to, slots[i].from, slots[i].to) && (to > from || (allDay && slots[i].allDay))
  }

  /** No slot of cell (d, lvl) overlaps [from, to). */
  predicate Free(slots: seq<Slot>, d: int, lvl: int, from: int, to: int) {
    forall i :: 0 <= i < |slots| && slots[i].day == d && slots[i].level == lvl ==> !Overlap(from, to, slots[i].from, slots[i].to)
  }

  /** The invariant the layout is meant to keep: within a cell, no two slots overlap,
      and every slot has positive width. */
  predicate NoOverlap(slots: seq<Slot>) {
    (forall i :: 0 <= i < |slots| ==> slots[i].from < slots[i].to)
    && forall i, j :: 0 <= i < j < |slots| && slots[i].day == slots[j].day && slots[i].level == slots[j].level
                      ==> !Overlap(slots[i].from, slots[i].to, slots[j].from, slots[j].to)
  }

  // ---- one bar ----

  /** The lowest level at or above `lvl` whose cell on day `d` has no conflict. */
  function FirstFreeLevel(slots: seq<Slot>, d: int, from: int, to: int, lvl: nat): (r: Option<nat>)
    ensures r.Some? ==> lvl <= r.value < MaxLevels && !Conflict(slots, d, r.value, from, to)
    ensures r.Some? ==> forall k :: lvl <= k < r.value ==> Conflict(slots, d, k, from, to)
    ensures r.None? ==> forall k :: lvl <= k < MaxLevels ==> Conflict(slots, d, k, from, to)
    decreases MaxLevels - lvl
  {
    if lvl >= MaxLevels then None
    else if !Conflict(slots, d, lvl, from, to) then Some(lvl)
    else FirstFreeLevel(slots, d, from, to, lvl + 1)
  }

  /** The last day of a bar placed at `lvl` whose next candidate day is `n`: it grows
      day by day up to `maxEnd` and stops before a day already drawn for the event or
      whose cell at `lvl` conflicts. */
  function ExtendEnd(slots: seq<Slot>, drawn: set<(string, int)>, it: Item, lvl: int, n: int, maxEnd: int): (e: int)
    requires n <= maxEnd + 1
    ensures n - 1 <= e <= maxEnd
    ensures forall k :: n <= k <= e ==>
              (it.id, k) !in drawn && !ExtConflict(slots, k, lvl, it.allDay, 0, DayTo(it, k))
    ensures e < maxEnd ==>
              (it.id, e + 1) in drawn || ExtConflict(slots, e + 1, lvl, it.allDay, 0, DayTo(it, e + 1))
    decreases maxEnd + 1 - n
  {
    if n > maxEnd then n - 1
    else if (it.id, n) in drawn || ExtConflict(slots, n, lvl, it.allDay, 0, DayTo(it, n)) then n - 1
    else ExtendEnd(slots, drawn, it, lvl, n + 1, maxEnd)
  }

  /** Registers days `d`..`e` of a bar at `lvl`: a slot for each day whose interval has
      positive width, and the (event, day) pair as drawn. */
  function Register(st: Layout, it: Item, lvl: int, d: int, e: int): (r: Layout)
    requires d <= e + 1
    ensures r.hidden == st.hidden && r.segments == st.segments
    ensures |st.slots| <= |r.slots| && r.slots[..|st.slots|] == st.slots
    ensures forall i :: |st.slots| <= i < |r.slots| ==>
              d <= r.slots[i].day <= e && r.slots[i].level == lvl && r.slots[i].id == it.id
              && RegInterval(it, r.slots[i].day) == Some((r.slots[i].from, r.slots[i].to))
              && r.slots[i].from < r.slots[i].to
    ensures forall i, j :: |st.slots| <= i < j < |r.slots| ==> r.slots[i].day < r.slots[j].day
    ensures st.drawn <= r.drawn
    ensures forall k :: d <= k <= e && RegInterval(it, k).Some? ==> (it.id, k) in r.drawn
    ensures forall p :: p in r.drawn ==> p in st.drawn || (p.0 == it.id && d <= p.1 <= e)
    decreases e + 1 - d
  {
    if d > e then st
    else
      var st1 := RegisterDay(st, it, lvl, d);
      var r := Register(st1, it, lvl, d + 1, e);
      assert r.slots[..|st1.slots|] == st1.slots;
      assert st1.slots[..|st.slots|] == st.slots;
      r
  }

  /** Registration of day `d` alone (the body of the registration loop). */
  function RegisterDay(st: Layout, it: Item, lvl: int, d: int): Layout {
    match RegInterval(it, d)
    case None => st
    case Some((f, t)) =>
      var slots := if t > f then st.slots + [Slot(d, lvl, f, t, it.id, it.allDay)] else st.slots;
      st.(slots := slots, drawn := st.drawn + {(it.id, d)})
  }

  /** One turn of the day loop for event `it` at day `d`: the next state and the next
      day to look at. */
  function PlaceDay(rule: Rule, card: Card, st: Layout, it: Item, d: int): (r: (Layout, int))
    requires it.startDay <= d <= it.visualLast && d <= card.last
    ensures d < r.1
    ensures st.drawn <= r.0.drawn
    ensures (it.id, d) in st.drawn ==> r == (st, d + 1)
    ensures forall k :: d <= k < r.1 ==> (it.id, k) in r.0.drawn || CheckInterval(rule, it, k).None?
    ensures r.0.segments == st.segments
            || (|r.0.segments| == |st.segments| + 1 && r.0.segments == st.segments + [r.0.segments[|st.segments|]]
                && Bar(card, it, d, r.0.segments[|st.segments|]) && r.1 == r.0.segments[|st.segments|].last + 1
                && CheckInterval(rule, it, d).Some?
                && LowestFree(st.slots, d, r.0.segments[|st.segments|].level, CheckInterval(rule, it, d).value))
    ensures r.0.hidden == st.hidden
            || (r.0.hidden == st.hidden + multiset{d} && r.0.slots == st.slots && r.1 == d + 1
                && r.0.drawn == st.drawn + {(it.id, d)}
                && CheckInterval(rule, it, d).Some? && NoLevelFree(st.slots, d, CheckInterval(rule, it, d).value))
  {
    if (it.id, d) in st.drawn then (st, d + 1)
    else match CheckInterval(rule, it, d)
      case None => (st, d + 1)
      case Some((from, to)) =>
        match FirstFreeLevel(st.slots, d, from, to, 0)
        case Some(lvl) =>
          var maxEnd := Min(Min(it.visualLast, WeekEnd(d)), card.last);
          var e := ExtendEnd(st.slots, st.drawn, it, lvl, d + 1, maxEnd);
          var st1 := Register(st, it, lvl, d, e);
          (st1.(segments := st1.segments + [Segment(it.id, lvl, d, e)]), e + 1)
        case None =>
          (st.(hidden := st.hidden + multiset{d}, drawn := st.drawn + {(it.id, d)}), d + 1)
  }

  /** A bar of event `it` starting on day `d`: one level below `MaxLevels`, and never
      past the event's visual last day, the Sunday that ends `d`'s week, or the card. */
  predicate Bar(card: Card, it: Item, d: int, seg: Segment) {
    seg.id == it.id && seg.first == d && 0 <= seg.level < MaxLevels
    && d <= seg.last && seg.last <= it.visualLast && seg.last <= WeekEnd(d) && seg.last <= card.last
  }

  /** `lvl` is the lowest level whose cell on day `d` does not conflict with `iv`. */
  predicate LowestFree(slots: seq<Slot>, d: int, lvl: int, iv: (int, int)) {
    !Conflict(slots, d, lvl, iv.0, iv.1) && forall k :: 0 <= k < lvl ==> Conflict(slots, d, k, iv.0, iv.1)
  }

  predicate NoLevelFree(slots: seq<Slot>, d: int, iv: (int, int)) {
    forall k :: 0 <= k < MaxLevels ==> Conflict(slots, d, k, iv.0, iv.1)
  }

  /** The day loop of one event, from day `d` on. */
  function PlaceFrom(rule: Rule, card: Card, st: Layout, it: Item, d: int): Layout
    requires it.startDay <= d
    decreases card.last + 1 - d
  {
    if d > it.visualLast || d > card.last then st
    else
      var (st1, next) := PlaceDay(rule, card, st, it, d);
      PlaceFrom(rule, card, st1, it, next)
  }

  /** The day loop marks every day of the event on the card as processed, except an
      instantaneous event's only day, which it skips. */
  lemma {:induction false} PlaceFromCovers(rule: Rule, card: Card, st: Layout, it: Item, d: int)
    requires it.startDay <= d
    ensures st.drawn <= PlaceFrom(rule, card, st, it, d).drawn
    ensures forall k :: d <= k <= it.visualLast && k <= card.last ==>
              (it.id, k) in PlaceFrom(rule, card, st, it, d).drawn || CheckInterval(rule, it, k).None?
    decreases card.last + 1 - d
  {
    if d <= it.visualLast && d <= card.last {
      var (st1, next) := PlaceDay(rule, card, st, it, d);
      PlaceFromCovers(rule, card, st1, it, next);
    }
  }

  /** All events of the card in sorted order. */
  function PlaceAll(rule: Rule, card: Card, st: Layout, items: seq<Item>): Layout
    decreases |items|
  {
    if items == [] then st
    else PlaceAll(rule, card, PlaceFrom(rule, card, st, items[0], Max(items[0].startDay, card.first)), items[1..])
  }

  /** The month card layout of the sorted events `rs`: with the corrected first-day
      check, or with all-day events only, no two slots of a (day, level) cell overlap. */
  function LayoutCard(rule: Rule, offset: int, card: Card, st: Layout, rs: seq<Resolved>): (r: Layout)
    requires forall r :: r in rs ==> r.startMs <= r.endMs
    ensures NoOverlap(st.slots) && (rule == Corrected || forall x :: x in rs ==> x.allDay) ==> NoOverlap(r.slots)
    ensures st.drawn <= r.drawn
  {
    var items := CardItems(offset, card, rs);
    PlaceAllDrawn(rule, card, st, items);
    if NoOverlap(st.slots) && (rule == Corrected || forall x :: x in rs ==> x.allDay) then
      CardLanesDisjoint(rule, offset, card, st, rs);
      PlaceAll(rule, card, st, items)
    else PlaceAll(rule, card, st, items)
  }

  /** The cells of a card's layout stay disjoint under the corrected rule, and for
      all-day events as written. */
  lemma CardLanesDisjoint(rule: Rule, offset: int, card: Card, st: Layout, rs: seq<Resolved>)
    requires forall r :: r in rs ==> r.startMs <= r.endMs
    requires NoOverlap(st.slots) && (rule == Corrected || forall x :: x in rs ==> x.allDay)
    ensures NoOverlap(PlaceAll(rule, card, st, CardItems(offset, card, rs)).slots)
  {
    var items := CardItems(offset, card, rs);
    if rule == Corrected {
      CorrectedLanesDisjoint(card, st, items);
    } else {
      forall i | 0 <= i < |items| ensures items[i].allDay {
        assert items[i] in items;
        var r :| r in rs && InCard(offset, card, r) && items[i] == ItemOf(offset, r);
      }
      AsWrittenAllDayLanesDisjoint(card, st, items);
    }
  }

  /** Laying out events only adds to the days marked drawn. */
  lemma {:induction false} PlaceAllDrawn(rule: Rule, card: Card, st: Layout, items: seq<Item>)
    ensures st.drawn <= PlaceAll(rule, card, st, items).drawn
    decreases |items|
  {
    if items != [] {
      var d := Max(items[0].startDay, card.first);
      PlaceFromCovers(rule, card, st, items[0], d);
      PlaceAllDrawn(rule, card, PlaceFrom(rule, card, st, items[0], d), items[1..]);
    }
  }

  /** The bar items of a card: the events that reach into the card, as items, in
      their sorted order. */
  function CardItems(offset: int, card: Card, rs: seq<Resolved>): (items: seq<Item>)
    requires forall r :: r in rs ==> r.startMs <= r.endMs
    ensures |items| <= |rs|
    ensures forall it :: it in items ==> exists r :: r in rs && InCard(offset, card, r) && it == ItemOf(offset, r)
    ensures forall r :: r in rs && InCard(offset, card, r) ==> ItemOf(offset, r) in items
  {
    if rs == [] then []
    else
      var rest := CardItems(offset, card, rs[1..]);
      if InCard(offset, card, rs[0]) then [ItemOf(offset, rs[0])] + rest else rest
  }

  /** The items of a list are the items of its parts in turn. */
  lemma {:induction false} CardItemsAppend(offset: int, card: Card, a: seq<Resolved>, b: seq<Resolved>)
    requires forall r :: r in a + b ==> r.startMs <= r.endMs
    ensures CardItems(offset, card, a + b) == CardItems(offset, card, a) + CardItems(offset, card, b)
    decreases |a|
  {
    if a == [] {
      assert a + b == b;
    } else {
      assert (a + b)[0] == a[0] && (a + b)[1..] == a[1..] + b;
      CardItemsAppend(offset, card, a[1..], b);
    }
  }

  /** One event is one item when it reaches into the card, and none otherwise. */
  lemma CardItemsSingle(offset: int, card: Card, r: Resolved)
    requires r.startMs <= r.endMs
    ensures CardItems(offset, card, [r]) == if InCard(offset, card, r) then [ItemOf(offset, r)] else []
  {
    assert [r][1..] == [];
  }

  // ---- lane disjointness ----

  /** Registering a bar keeps the cells disjoint when each registered interval is free
      in its cell. */
  lemma RegisterKeepsNoOverlap(st: Layout, it: Item, lvl: int, d: int, e: int)
    requires d <= e + 1 && NoOverlap(st.slots)
    requires forall k :: d <= k <= e && RegInterval(it, k).Some? ==>
               Free(st.slots, k, lvl, RegInterval(it, k).value.0, RegInterval(it, k).value.1)
    ensures NoOverlap(Register(st, it, lvl, d, e).slots)
  {
    var r := Register(st, it, lvl, d, e);
    var n := |st.slots|;
    assert forall i :: 0 <= i < n ==> r.slots[i] == st.slots[i] by {
      assert r.slots[..n] == st.slots;
    }
    forall i, j | 0 <= i < j < |r.slots| && r.slots[i].day == r.slots[j].day && r.slots[i].level == r.slots[j].level
      ensures !Overlap(r.slots[i].from, r.slots[i].to, r.slots[j].from, r.slots[j].to)
    {
      if i < n <= j {
        assert Free(st.slots, r.slots[j].day, lvl, r.slots[j].from, r.slots[j].to);
      }
    }
  }

  /** A rule checks a day with the interval it registers: always for the corrected
      rule, and for all-day events and on an event's first day for the code as written. */
  predicate ChecksWhatItRegisters(rule: Rule, it: Item, d: int) {
    rule == Corrected || it.allDay || d == it.startDay
  }

  lemma CheckMatchesRegistration(rule: Rule, it: Item, d: int)
    requires ChecksWhatItRegisters(rule, it, d)
    ensures CheckInterval(rule, it, d) == RegInterval(it, d)
  {
  }

  /** A bar whose first day passed the first-day test with its registered interval and
      whose later days passed the extension test is free in every cell it registers. */
  lemma BarCellsFree(slots: seq<Slot>, it: Item, lvl: int, d: int, e: int)
    requires RegInterval(it, d).Some?
    requires !Conflict(slots, d, lvl, RegInterval(it, d).value.0, RegInterval(it, d).value.1)
    requires forall k :: d < k <= e ==> !ExtConflict(slots, k, lvl, it.allDay, 0, DayTo(it, k))
    requires it.startDay <= d
    ensures forall k :: d <= k <= e && RegInterval(it, k).Some? ==>
              Free(slots, k, lvl, RegInterval(it, k).value.0, RegInterval(it, k).value.1)
  {
    forall k | d <= k <= e && RegInterval(it, k).Some?
      ensures Free(slots, k, lvl, RegInterval(it, k).value.0, RegInterval(it, k).value.1)
    {
      if k > d {
        assert RegInterval(it, k) == Some((0, DayTo(it, k)));
        assert !ExtConflict(slots, k, lvl, it.allDay, 0, DayTo(it, k));
      } else {
        assert !Conflict(slots, d, lvl, RegInterval(it, d).value.0, RegInterval(it, d).value.1);
      }
    }
  }

  /** One day of the loop keeps the cells disjoint when the day is checked with the
      interval it registers. */
  lemma PlaceDayKeepsNoOverlap(rule: Rule, card: Card, st: Layout, it: Item, d: int)
    requires it.startDay <= d <= it.visualLast && d <= card.last
    requires NoOverlap(st.slots) && ChecksWhatItRegisters(rule, it, d)
    ensures NoOverlap(PlaceDay(rule, card, st, it, d).0.slots)
  {
    if (it.id, d) !in st.drawn && CheckInterval(rule, it, d).Some? {
      var (from, to) := CheckInterval(rule, it, d).value;
      var lvl := FirstFreeLevel(st.slots, d, from, to, 0);
      if lvl.Some? {
        var maxEnd := Min(Min(it.visualLast, WeekEnd(d)), card.last);
        var e := ExtendEnd(st.slots, st.drawn, it, lvl.value, d + 1, maxEnd);
        assert PlaceDay(rule, card, st, it, d).0.slots == Register(st, it, lvl.value, d, e).slots;
        CheckMatchesRegistration(rule, it, d);
        BarCellsFree(st.slots, it, lvl.value, d, e);
        RegisterKeepsNoOverlap(st, it, lvl.value, d, e);
      }
    }
  }

  /** The day loop of an event keeps the cells disjoint under the corrected rule, and
      for all-day events under the rule as written. */
  lemma {:induction false} PlaceFromKeepsNoOverlap(rule: Rule, card: Card, st: Layout, it: Item, d: int)
    requires it.startDay <= d && NoOverlap(st.slots) && (rule == Corrected || it.allDay)
    ensures NoOverlap(PlaceFrom(rule, card, st, it, d).slots)
    decreases card.last + 1 - d
  {
    if d <= it.visualLast && d <= card.last {
      PlaceDayKeepsNoOverlap(rule, card, st, it, d);
      var (st1, next) := PlaceDay(rule, card, st, it, d);
      PlaceFromKeepsNoOverlap(rule, card, st1, it, next);
    }
  }

  /** With the corrected first-day check, no two slots of a (day, level) cell overlap,
      whatever the events. */
  lemma {:induction false} CorrectedLanesDisjoint(card: Card, st: Layout, items: seq<Item>)
    requires NoOverlap(st.slots)
    ensures NoOverlap(PlaceAll(Corrected, card, st, items).slots)
    decreases |items|
  {
    if items != [] {
      PlaceFromKeepsNoOverlap(Corrected, card, st, items[0], Max(items[0].startDay, card.first));
      CorrectedLanesDisjoint(card, PlaceFrom(Corrected, card, st, items[0], Max(items[0].startDay, card.first)), items[1..]);
    }
  }

  /** The code as written keeps the cells disjoint for all-day events. */
  lemma {:induction false} AsWrittenAllDayLanesDisjoint(card: Card, st: Layout, items: seq<Item>)
    requires NoOverlap(st.slots)
    requires forall i :: 0 <= i < |items| ==> items[i].allDay
    ensures NoOverlap(PlaceAll(AsWritten, card, st, items).slots)
    decreases |items|
  {
    if items != [] {
      PlaceFromKeepsNoOverlap(AsWritten, card, st, items[0], Max(items[0].startDay, card.first));
      AsWrittenAllDayLanesDisjoint(card, PlaceFrom(AsWritten, card, st, items[0], Max(items[0].startDay, card.first)), items[1..]);
    }
  }

  // ---- the continuation-day check as written ----

  /** Two timed events in UTC that began before a card whose first day is the Monday
      day 7: X from Saturday (day 5) 08:00 to Monday 12:00, and A from Sunday 22:00 to
      Monday 10:00. On the card both bars start on the Monday, a day that is not
      their first. */
  const CaseX: Item := Item("x", false, 5, 7, 7, 480, 720, false)
  const CaseA: Item := Item("a", false, 6, 7, 7, 1320, 600, false)
  const CaseCard: Card := Card(7, 34)

  /** The states after X's bar and after A's bar. */
  const CaseS1: Layout := Layout([Slot(7, 0, 0, 720, "x", false)], {("x", 7)}, multiset{}, [Segment("x", 0, 7, 7)])
  const CaseS2: Layout := Layout(CaseS1.slots + [Slot(7, 0, 0, 600, "a", false)],
                                 CaseS1.drawn + {("a", 7)}, multiset{}, CaseS1.segments + [Segment("a", 0, 7, 7)])

  /** X takes level 0 on Monday and registers 0 to 12:00 there. */
  lemma CaseStepX()
    ensures PlaceDay(AsWritten, CaseCard, Empty, CaseX, 7) == (CaseS1, 8)
  {
    assert WeekEnd(7) == 13;
    assert CheckInterval(AsWritten, CaseX, 7) == Some((480, 720));
    assert FirstFreeLevel([], 7, 480, 720, 0) == Some(0);
    assert ExtendEnd([], {}, CaseX, 0, 8, 7) == 7;
    var b := RegisterDay(Empty, CaseX, 0, 7);
    assert b == CaseS1.(segments := []);
    assert Register(b, CaseX, 0, 8, 7) == b;
    assert Min(Min(CaseX.visualLast, WeekEnd(7)), CaseCard.last) == 7;
    assert ("x", 7) !in Empty.drawn;
    assert b.(segments := b.segments + [Segment("x", 0, 7, 7)]) == CaseS1;
  }

  /** A is tested on Monday with 22:00 to 10:00, an empty interval that conflicts with
      nothing, so it also takes level 0, and registers 0 to 10:00. */
  lemma CaseStepA()
    ensures PlaceDay(AsWritten, CaseCard, CaseS1, CaseA, 7) == (CaseS2, 8)
  {
    assert WeekEnd(7) == 13;
    assert CheckInterval(AsWritten, CaseA, 7) == Some((1320, 600));
    assert !Conflict(CaseS1.slots, 7, 0, 1320, 600);
    assert FirstFreeLevel(CaseS1.slots, 7, 1320, 600, 0) == Some(0);
    assert ExtendEnd(CaseS1.slots, CaseS1.drawn, CaseA, 0, 8, 7) == 7;
    var b := RegisterDay(CaseS1, CaseA, 0, 7);
    assert b == CaseS1.(slots := CaseS2.slots, drawn := CaseS2.drawn);
    assert Register(b, CaseA, 0, 8, 7) == b;
  }

  lemma CaseLayout()
    ensures PlaceAll(AsWritten, CaseCard, Empty, [CaseX, CaseA]) == CaseS2
  {
    var items := [CaseX, CaseA];
    assert items[0] == CaseX && items[1..] == [CaseA];
    assert Max(CaseX.startDay, CaseCard.first) == 7 && Max(CaseA.startDay, CaseCard.first) == 7;
    CaseStepX();
    CaseStepA();
    assert PlaceFrom(AsWritten, CaseCard, CaseS1, CaseX, 8) == CaseS1;
    assert PlaceFrom(AsWritten, CaseCard, Empty, CaseX, 7) == CaseS1;
    assert PlaceFrom(AsWritten, CaseCard, CaseS2, CaseA, 8) == CaseS2;
    assert PlaceFrom(AsWritten, CaseCard, CaseS1, CaseA, 7) == CaseS2;
    assert PlaceAll(AsWritten, CaseCard, CaseS2, []) == CaseS2;
    assert PlaceAll(AsWritten, CaseCard, CaseS1, [CaseA]) == CaseS2;
    assert PlaceAll(AsWritten, CaseCard, Empty, items) == PlaceAll(AsWritten, CaseCard, CaseS1, [CaseA]);
  }

  /** The code as written stacks A on top of X: the Monday cell at level 0 holds X's
      slot 0..12:00 and A's slot 0..10:00. */
  lemma AsWrittenLanesCollide()
    ensures var slots := PlaceAll(AsWritten, CaseCard, Empty, [CaseX, CaseA]).slots;
            slots == [Slot(7, 0, 0, 720, "x", false), Slot(7, 0, 0, 600, "a", false)]
            && !NoOverlap(slots)
  {
    CaseLayout();
    CaseCollision(CaseS2.slots);
  }

  lemma CaseCollision(slots: seq<Slot>)
    requires slots == [Slot(7, 0, 0, 720, "x", false), Slot(7, 0, 0, 600, "a", false)]
    ensures !NoOverlap(slots)
  {
    assert Overlap(slots[0].from, slots[0].to, slots[1].from, slots[1].to);
  }

  /** The two items are the layout's reading of two stored timed events in a UTC
      browser, and X sorts before A. */
  const CaseEnv: Env := Env(map["UTC" := 0], "UTC")

  function CaseEvent(id: string, startDay: int, startMinute: int, endDay: int, endMinute: int): Event {
    Event(id, id, "", "", "", Present(startDay), Present(endDay), None, None, Some("UTC"), Some("UTC"),
          Present(ToInstant(0, startDay, startMinute)), Present(ToInstant(0, endDay, endMinute)), None)
  }

  lemma CaseItemOf(id: string, startDay: int, startMinute: int, endDay: int, endMinute: int)
    requires 0 <= startMinute < MinutesPerDay && 0 < endMinute < MinutesPerDay && startDay < endDay
    ensures var r := Resolve(CaseEnv, CaseEvent(id, startDay, startMinute, endDay, endMinute));
            r.Some? && r.value.startMs == ToInstant(0, startDay, startMinute)
            && ItemOf(0, r.value) == Item(id, false, startDay, endDay, endDay, startMinute, endMinute, false)
  {
    var s := ToInstant(0, startDay, startMinute);
    var e := ToInstant(0, endDay, endMinute);
    LocalOfInstant(0, startDay, startMinute);
    LocalOfInstant(0, endDay, endMinute);
    assert s < e;
  }

  lemma CaseItemsFromEvents()
    ensures var rx := Resolve(CaseEnv, CaseEvent("x", 5, 480, 7, 720));
            var ra := Resolve(CaseEnv, CaseEvent("a", 6, 1320, 7, 600));
            rx.Some? && ra.Some? && ItemOf(0, rx.value) == CaseX && ItemOf(0, ra.value) == CaseA
            && EventOrder(rx.value, ra.value) && !EventOrder(ra.value, rx.value)
            && InCard(0, CaseCard, rx.value) && InCard(0, CaseCard, ra.value)
  {
    CaseItemOf("x", 5, 480, 7, 720);
    CaseItemOf("a", 6, 1320, 7, 600);
  }
}
