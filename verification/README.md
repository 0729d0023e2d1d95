# Dein-Kalender: a verified model of the calendar core

Dein-Kalender is a German year, month, week and day planner that runs in the browser. This
project models its core in Dafny:

- how stored events are resolved, sorted and laid out on the month, year and week grids
  (`eventRenderer.js`);
- the resize gesture with its throttled preview and the drag-and-drop move
  (`eventResizer.js`, `dragDrop.js`);
- the date and text helpers (`utils.js`);
- the event store, that is, the day list, the edit dialog's save and delete, and ICS import
  and export (`eventManager.js`);
- the month grid's cells, the week-row hover and the year select (`calendarGrid.js`).

The project also proves properties of that model.

Conventions of the model:

- Time is an `int` count of milliseconds since 0001-01-01T00:00Z. A calendar day is an `int`
  day number, and day 0 is a Monday (`Civil`).
- A time zone is a fixed offset in minutes. An `Env` maps the zone names luxon knows to their
  offsets and names the browser's own zone. An unknown name plays the part of luxon's invalid
  DateTime.
- A stored event's fields are `Field<T>` values: `Missing`, `Malformed` (a text that does not
  parse) or `Present`.
- "Fractions" of a day are minutes of the day, 0..1440, where 1440 stands for 1.0.
- Luxon's formatting and parsing (`toFormat("yyyy-MM-dd")`, `"HH:mm"`, `"dd.MM.yyyy"`,
  `fromFormat("yyyyMMdd'T'HHmmss")`) are written out over these numbers, with their round
  trips proved.
- Gestures are pure transitions on a `Ui` record. The clock, the random ids and the user's
  `confirm` answers are parameters.

Modules: `Wrappers`, `Civil`, `Text`, `TimeText`, `Sorting`, `Events`, `EventEdits`,
`MonthLayout`, `PreviewLevels`, `WeekSweep`, `SweepProofs`, `WeekColumns`, `WeekLayout`,
`Throttle`, `Resize`, `DragDrop`, `Interaction`, `IcsEscape`, `IcsDateTime`, `IcsImport`,
`IcsExport`, `EventStore`, `RangeText` and `CalendarGrid`.

## Model

| member | source | states |
|---|---|---|
| Civil.FromDaysToDays | calendarGrid.js:96-97 | a date built from year, month and day and printed as `yyyy-MM-dd` names that date again: day numbering is a bijection on valid dates |
| Civil.FromDays | calendarGrid.js:96-97 | every day number names a valid calendar date that counts back to the same day number |
| Civil.IsoWeekday | calendarGrid.js:77 | luxon's `weekday` is 1 (Monday) to 7 (Sunday) |
| Civil.MinuteOfDay | eventRenderer.js:758 | the local clock reading of an instant is a minute of the day, 0..1439 |
| Civil.LocalDayMonotone | eventRenderer.js:616-617 | a later instant never falls on an earlier local day |
| Civil.FromDaysInjective | eventManager.js:496 | two day numbers print the same calendar date only when they are the same day |
| Civil.WeekEnd | eventRenderer.js:284 | `endOf("week")` is the Sunday of the Monday-first week, 0..6 days later |
| Civil.SameWeek | eventRenderer.js:284-285 | every day up to that Sunday belongs to the same week |
| Civil.LocalOfInstant | eventManager.js:288 | the instant built from a local day and minute reads back as that day and minute |
| Civil.InstantInLocalDay | eventRenderer.js:616-617 | an instant lies between the start and end of the local day it falls on |
| Civil.NextDaySameClock | eventRenderer.js:255 | `plus({ days: 1 })` moves to the next local day at the same clock time |
| Civil.DayBounds | eventManager.js:53-54 | `startOf("day")` and `endOf("day")` both lie in the day they bound |
| Text.Split | utils.js:187 | `split(":")` gives at least one part and no part holds the separator |
| Text.SplitCount | utils.js:187-188 | `split` yields one more part than there are separators |
| Text.SplitJoin | utils.js:187 | joining the parts with the separator gives the text back |
| Text.Find | utils.js:104 | `indexOf` is the first occurrence, and None exactly when the character is absent |
| Text.LeadingSpacesSpec | eventManager.js:220 | `trim` removes exactly the leading run of JavaScript whitespace |
| Text.TrailingSpacesSpec | eventManager.js:220 | `trim` removes exactly the trailing run of JavaScript whitespace |
| Text.ParseIntOfDigits | utils.js:189-190 | `parseInt` reads back any digit string |
| Text.Decimal | utils.js:153 | a year beyond four digits prints as decimal digits without leading zeros that read back as the year |
| Text.Pad2 | utils.js:75 | the two-digit luxon tokens print two digits that read back as the number |
| Text.Pad4 | utils.js:75 | `yyyy` prints four digits that read back as the year |
| Text.Upper | eventManager.js:438 | `toUpperCase` on ASCII only: each of `a`-`z` becomes its capital, every other character stays, so the length is kept |
| Text.SplitHHmm | utils.js:187 | an `HH:mm` text splits into its two-digit hour and minute |
| TimeText.TimeToFraction | utils.js:185-193 | `timeToFraction` yields a minute of the day, 0..1439, or null |
| TimeText.OneColonNeeded | utils.js:187-188 | a text without exactly one ':' gives null |
| TimeText.TimeToFractionParts | utils.js:187-192 | a fraction that is read comes from an hour part and a minute part that parse to it |
| TimeText.FractionOfFormat | eventRenderer.js:758 | every `HH:mm` luxon prints reads back as the minute it came from |
| TimeText.FormatHHmmInjective | eventRenderer.js:760-761 | distinct minutes print differently |
| TimeText.MidnightText | eventRenderer.js:761 | the text is `00:00` exactly at minute 0 |
| TimeText.ClockOfFormat | dragDrop.js:222 | reading a printed clock text gives the minute back |
| TimeText.FormatOfClock | dragDrop.js:222 | every readable clock text is the print of the minute it reads as |
| TimeText.FractionOfClock | utils.js:185-193 | on a well-formed clock text `timeToFraction` reads the same minute as luxon |
| TimeText.ClockOf | eventResizer.js:97 | an ISO clock text reads as a minute of the day or not at all |
| TimeText.NumberOf | dragDrop.js:222 | `Number` of a clock part: a digit string reads as its value, and NaN only for a non-empty text with a non-digit |
| TimeText.ClockSetOf | eventResizer.js:519-524 | `split(":").map(Number)` sets the hour its first part reads as, sets a minute exactly when the text has a ':', and throws exactly when a part it uses is NaN |
| TimeText.ClockSetOfClock | dragDrop.js:222-227 | on an `HH:mm` text the `Number` read sets the same hour and minute as the strict read |
| TimeText.ShortHourClock | dragDrop.js:222-227 | `9:00`, which is not `HH:mm`, still sets 9 o'clock |
| TimeText.HourOnlyClock | eventResizer.js:519-522 | a text without ':' sets the hour and leaves the minute as it was |
| TimeText.MidnightEndClock | eventResizer.js:519-524 | `24:00` sets hour 24, which is minute 1440, the midnight that ends the day |
| TimeText.LettersClock | eventResizer.js:519-524 | letters read as NaN, on which `set` throws |
| Sorting.SortBy | eventRenderer.js:778-785 | the result is sorted by the order and is a permutation of the input |
| Sorting.InsertBy | eventRenderer.js:778 | inserting into a sorted list keeps it sorted and adds exactly the one element |
| Events.Resolve | eventRenderer.js:726-775 | an event is drawn exactly when it has a start and an end, plus both instants (timed) or both days (all-day); all-day spans run from start of day to end of day; an end before the start is clamped to the start |
| Events.EndFraction | eventRenderer.js:760-768 | an end at midnight on a later day ends at 1.0; a span within one day whose end fraction is not above its start is widened by 5 minutes, capped at 1.0 |
| Events.FractionsMatchClockText | eventRenderer.js:758-761 | the start fraction is `timeToFraction` of the start's clock text, and the end text is `00:00` exactly at local midnight |
| Events.ResolveAll | eventRenderer.js:725-777 | the survivors of `map` then `filter(Boolean)` are exactly the resolvable events, resolved |
| Events.ResolveAllAppend | eventRenderer.js:725-777 | resolving a list is resolving its parts one after the other, so the survivors keep the stored order |
| Events.ResolveAllSingle | eventRenderer.js:725-777 | one event gives its resolved form, or nothing when it does not resolve |
| Events.CompareIsEventOrder | eventRenderer.js:778-785 | the comparator is consistent and antisymmetric: earlier start first, all-day before timed, then longer first |
| Events.EventOrderIsTotalPreorder | eventRenderer.js:778-785 | that order is total and transitive, so the sort is well defined |
| Events.SortEvents | eventRenderer.js:778 | sorted by the event order and a permutation of the resolved events |
| Events.ProcessEvents | eventRenderer.js:725-785 | the list handed to the layouts is sorted, holds only resolved events with start no later than end, and holds every resolvable event |
| Events.VisualLastDay | eventRenderer.js:232-248 | a bar's last day is its end's day, except that a timed event ending exactly at midnight on a later day stops the day before; never before the start day |
| EventEdits.DayText | eventManager.js:509 | the `yyyy-MM-dd` of an instant is its local day in the zone, and malformed for an unknown zone |
| EventEdits.ClockText | eventManager.js:510 | the `HH:mm` of an instant reads back as its local minute in the zone |
| EventEdits.WriteStart | eventManager.js:506-510 | after writing the start fields, they read back as the instant in the zone; the end fields and details are untouched |
| EventEdits.WriteEnd | eventManager.js:513-517 | after writing the end fields, they read back as the instant in the zone; the start fields and details are untouched |
| EventEdits.ClearTimes | dragDrop.js:212-217 | every time field and zone is deleted and the days are kept |
| EventEdits.AtClock | dragDrop.js:227 | `fromISO(day, {zone}).set({hour, minute})` lands on that local day and minute, and exists exactly for a known zone |
| EventEdits.FirstWithId | eventResizer.js:804 | `find` by id gives the first event with the id, or None when no event has it |
| EventEdits.FirstWithIdAt | eventResizer.js:804 | the first position holding an id is the one found |
| MonthLayout.FirstFreeLevel | eventRenderer.js:276-281 | the level taken is the lowest one at or above the start that has no conflict on the day; None when all levels conflict |
| MonthLayout.ExtendEnd | eventRenderer.js:286-327 | a bar grows day by day up to the cap and stops before the first day that is already drawn or conflicts |
| MonthLayout.Register | eventRenderer.js:400-421 | registration adds one slot per day that has a positive interval, on the bar's level, and marks those days drawn |
| MonthLayout.PlaceDay | eventRenderer.js:251-431 | one turn of the day loop either draws a bar on the lowest free level, or counts the day as hidden when every level is taken, or skips a drawn day |
| MonthLayout.PlaceFromCovers | eventRenderer.js:251-431 | the day loop marks every day of the event on the card as processed, except the skipped day of an instantaneous event |
| MonthLayout.RegisterKeepsNoOverlap | eventRenderer.js:417-419 | registering intervals that are free keeps the slots of each (day, level) cell disjoint |
| MonthLayout.BarCellsFree | eventRenderer.js:276-327 | a bar that passed the first-day test and the extension tests is free in every cell it registers |
| MonthLayout.PlaceDayKeepsNoOverlap | eventRenderer.js:251-431 | one turn keeps the cells disjoint when the day is tested with the interval it registers |
| MonthLayout.PlaceFromKeepsNoOverlap | eventRenderer.js:251-431 | the day loop of one event keeps the cells disjoint under the corrected rule, and for all-day events as written |
| MonthLayout.CorrectedLanesDisjoint | eventRenderer.js:260 | with the first-day test using 0 on continuation days, no two slots of a cell overlap, whatever the events |
| MonthLayout.AsWrittenAllDayLanesDisjoint | eventRenderer.js:260 | as written, cells stay disjoint for all-day events |
| MonthLayout.AsWrittenLanesCollide | eventRenderer.js:260 | as written, a timed event continuing from the previous day is stacked onto a level already taken on that day |
| MonthLayout.CaseItemOf | eventRenderer.js:232-261 | the events of that case resolve to the items the layout is run on |
| MonthLayout.CardItems | eventRenderer.js:208-248 | a card's items are exactly the events that reach into the card, made into items, at most one per event |
| MonthLayout.CardItemsAppend | eventRenderer.js:208-248 | the items of a list are the items of its parts one after the other, so the sorted order is kept |
| MonthLayout.CardItemsSingle | eventRenderer.js:208-248 | one event gives one item when it reaches into the card, and none otherwise |
| MonthLayout.LayoutCard | eventRenderer.js:208-431 | laying out a card only adds drawn days, and keeps the cells disjoint under the corrected rule or for all-day events |
| MonthLayout.CardLanesDisjoint | eventRenderer.js:251-431 | a card laid out under the corrected rule, or with all-day events only, has no two slots of a cell overlapping |
| MonthLayout.PlaceAllDrawn | eventRenderer.js:251-431 | placing events never unmarks a drawn day |
| PreviewLevels.OtherLastDay | eventResizer.js:160-170 | another event's last covered day is never before its start day |
| PreviewLevels.DayOccupied | eventResizer.js:148-190 | a level is taken on a day exactly when another event on that level covers the day |
| PreviewLevels.FindLevelForPreviewSegment | eventResizer.js:138-197 | the preview takes the lowest level free on every day of the segment; it reports `maxLevels` when none is free or the segment is invalid |
| PreviewLevels.CheckBasicCollision | eventResizer.js:547-581 | the preview is marked colliding exactly when it overlaps another event as the view compares them |
| WeekSweep.Points | eventRenderer.js:633-636 | each segment gives exactly one start point and one end point, all distinct |
| WeekSweep.PointOrderIsTotalPreorder | eventRenderer.js:637-644 | the point order (time, then ends before starts) is a total preorder |
| WeekSweep.PointCompareIsPointOrder | eventRenderer.js:637-644 | the comparator agrees with that order wherever it is consistent |
| WeekSweep.SortPoints | eventRenderer.js:637 | the sorted points are a permutation sorted by the point order |
| WeekSweep.EndsBeforeStarts | eventRenderer.js:637-644 | in the sorted points no start precedes an end at the same time |
| WeekSweep.FirstFreeColumn | eventRenderer.js:648-658 | a starting segment takes the first column whose last segment ended by its start, or a new column |
| WeekSweep.RemoveFirst | eventRenderer.js:663-664 | `splice(findIndex(...), 1)` removes one occurrence |
| WeekSweep.RaiseProxies | eventRenderer.js:666-674 | each active segment's parallel count rises to at least its current overlap count |
| WeekSweep.OverlapCount | eventRenderer.js:666-670 | an overlap count never exceeds the number of active segments |
| WeekSweep.Place | eventRenderer.js:646-665 | a start point gives its segment a column; an end point gives none |
| WeekSweep.Step | eventRenderer.js:646-675 | a start point adds its segment to the placed ones, an end point adds none |
| WeekSweep.Run | eventRenderer.js:646-675 | the sweep over a prefix of the points keeps its state well formed |
| SweepProofs.RunKeepsColumnsDisjoint | eventRenderer.js:646-675 | whatever the order of the points, segments sharing a column never overlap |
| SweepProofs.PlaceKeepsColumnsDisjoint | eventRenderer.js:648-665 | handling one point keeps segments sharing a column disjoint |
| SweepProofs.SortedPointsOf | eventRenderer.js:633-645 | the sorted points of a day hold one start and one end per segment, ends first at equal times |
| SweepProofs.AssignKeepsDisjoint | eventRenderer.js:648-660 | a segment put into a column whose last segment has ended keeps the column disjoint |
| SweepProofs.NewColumnIsWide | eventRenderer.js:655-672 | when every column is busy at a start, the starting segment's parallel count exceeds the number of columns |
| SweepProofs.CountAtLeast | eventRenderer.js:668-672 | counting with repetition finds at least the distinct overlapping segments |
| SweepProofs.DayPointsPlaceAll | eventRenderer.js:646-665 | the sweep of a day's points gives every segment a column |
| WeekColumns.Widest | eventRenderer.js:676-677 | `overallMaxParallel` is at least 1 and at least every segment's parallel count |
| WeekColumns.ParallelOf | eventRenderer.js:676-677 | the shared width of a day column is at least 1 |
| WeekColumns.SweepDay | eventRenderer.js:633-675 | the sweep of a day gives a column to every segment and to nothing else |
| WeekColumns.ColumnOf | eventRenderer.js:661 | the columns are listed one per segment, indexed like the segments |
| WeekColumns.ColumnOfDisjoint | eventRenderer.js:646-675 | segments given the same column never overlap |
| WeekColumns.ColumnOfFits | eventRenderer.js:676-677 | every column is below the day's width |
| WeekColumns.BlocksOf | eventRenderer.js:679-700 | one block per segment with its id and times, visible exactly when it spans a positive part of the day, columns below a shared width, same-column blocks disjoint |
| WeekColumns.SweepDayDisjoint | eventRenderer.js:633-675 | the sweep of one day column keeps segments sharing a column disjoint |
| WeekColumns.SweepDayFitsWidth | eventRenderer.js:676-677 | every column index is below the shared width, so no block is drawn outside its day column |
| WeekColumns.DayColumns | eventRenderer.js:633-677 | every segment gets a column below the width, and segments sharing a column do not overlap |
| WeekColumns.TimedBlocks | eventRenderer.js:679-700 | one block per segment with its id and times, visible exactly when it has positive height, its column below the shared width, same-column blocks disjoint |
| WeekLayout.EmptyAllDay | eventRenderer.js:503-504 | the all-day grid starts with every level empty and no hidden counts |
| WeekLayout.FreeLevel | eventRenderer.js:514-524 | the level chosen is the lowest one free on every visible day of the event |
| WeekLayout.PlaceSpan | eventRenderer.js:507-582 | an all-day event fills its days on the lowest free level; when no level is free the hidden count of each of its days goes up by one |
| WeekLayout.PlaceSpans | eventRenderer.js:507-583 | placing the all-day events one after the other keeps the grid one row per level and one count per day |
| WeekLayout.PlaceSpanAccounts | eventRenderer.js:507-582 | placing an event adds one, as a bar or as hidden, on exactly the visible days it covers |
| WeekLayout.PlaceSpanKeepsDrawn | eventRenderer.js:526-531 | placing an event only fills empty cells |
| WeekLayout.EveryAllDayEventAccounted | eventRenderer.js:507-582 | every all-day event is counted exactly once on every visible day it spans: as a bar on one level or in the hidden count |
| WeekLayout.PlaceSpansKeepsDrawn | eventRenderer.js:507-583 | placing more events never changes a cell that already holds a bar |
| WeekLayout.AllDaySpans | eventRenderer.js:492-502 | the all-day events placed are exactly the resolved all-day events that overlap the view, none left out |
| WeekLayout.AllDaySpansAppend | eventRenderer.js:492-502 | the events are placed in the order they are stored: the spans of two lists joined are the spans of each, joined |
| WeekLayout.AllDaySpansSingle | eventRenderer.js:492-502 | one event gives its span exactly when it is all-day and overlaps the view |
| WeekLayout.WeekAllDayCounts | eventRenderer.js:492-583 | on each visible day, the bars on it plus its "+N" count equal the all-day events in view that cover that day |
| WeekLayout.AllDayEventShown | eventRenderer.js:492-583 | every all-day event in view shows on each visible day it spans, as a bar or in the "+N" count |
| WeekLayout.DaySegments | eventRenderer.js:605-628 | a day's segments are exactly the non-empty clips to the day of the timed events in view |
| WeekLayout.WeekAllDay | eventRenderer.js:492-583 | the all-day grid of a week view has one count per visible day |
| WeekLayout.WeekOf | eventRenderer.js:460-700 | a week view has an all-day grid and one column of timed blocks per visible day |
| Throttle.StepOf | eventResizer.js:36-59 | a call runs at once when `limit` has passed since the last run, and otherwise arms a timer; the timer runs the latest arguments; `cancel` disarms it |
| Throttle.Run | eventResizer.js:36-59 | a run of calls and timer firings yields one outcome per step and keeps the throttle well formed |
| Throttle.RunsSpaced | eventResizer.js:40-50 | any two runs are at least `limit` apart |
| Throttle.RunsUseLatestArgs | eventResizer.js:37-47 | every run uses the arguments of the latest call so far |
| Throttle.CancelStopsRuns | eventResizer.js:54-59 | after `cancel` nothing runs until the next call |
| Throttle.NothingArmedNothingRuns | eventResizer.js:40-52 | with no timer armed and no call, nothing runs |
| Throttle.DeferredCallRuns | eventResizer.js:45-50 | a call that had to wait is run by its timer once due |
| Resize.DateTimeIn | eventResizer.js:97 | `fromISO(date + "T" + time, {zone})` is valid exactly for a date, a clock text and a known zone |
| Resize.PrepareForPreview | eventResizer.js:68-120 | the preview reads all-day days from start of day to end of day in the viewer's zone and timed events by their instants; an end before the start becomes start + 1 hour |
| Resize.PreviewAgreesWithRenderer | eventResizer.js:116-118 | for a drawn event the preview reads the renderer's instants, except where the renderer clamps an end before the start |
| Resize.TargetMinute | eventResizer.js:436-447 | the target names a minute of the day from its hour and `minute` or 0 |
| Resize.HourResize | eventResizer.js:422-465 | the top handle moves the start to the target row and keeps the end after it (else start + 1 hour); the bottom handle moves the end and keeps at least 15 minutes |
| Resize.HourInstantsFacts | eventResizer.js:422-465 | an instant is written exactly when its zone is known; the start stays before the end |
| Resize.DraggedDays | eventResizer.js:471-485 | the dragged end moves to the target day and the other end follows it when passed; start never after end |
| Resize.AllDayResize | eventResizer.js:471-493 | a date handle on an all-day bar sets the dragged day, keeps start no later than end, and deletes the time fields |
| Resize.ClockedDay | eventResizer.js:496-524 | the clock text is read with `split(":").map(Number)`; `set` throws exactly when a part it uses is NaN on a valid day in a known zone, and gives an instant exactly when both read |
| Resize.ClockedDayInstant | eventResizer.js:519-524 | that instant is the local day's midnight in the event's zone plus the hour and minute set, a missing minute kept from the day start, hours past 23 running on |
| Resize.ClockedDayOnClock | eventResizer.js:496-524 | with an `HH:mm` text the instant reads that clock in its zone, and in the viewer's zone lies on the day itself |
| Resize.ClockedDayAtMidnightEnd | eventResizer.js:519-524 | `24:00` on a day in the viewer's zone is the midnight that starts the next day |
| Resize.DateHandleClocks | eventResizer.js:496-536 | both written instants read their original `HH:mm` clock texts in their zones |
| Resize.DateHandleInViewerZone | eventResizer.js:504-529 | in the viewer's zone and with `HH:mm` clock texts a date handle keeps start before end and puts the dragged end on the target day (the end on it or the day after) |
| Resize.TimedDateResize | eventResizer.js:494-541 | a timed bar's date handle keeps its details and its `HH:mm` clock texts; it fails exactly where a clock part it uses is NaN |
| Resize.CalculateResized | eventResizer.js:416-541 | the resized event keeps its details and kind; an all-day result is a drawn all-day event; an hour resize in known zones gives a drawn event with start before end |
| Resize.HandleThreshold | eventResizer.js:634-637 | the grab width is 10px, or 2/5 of a narrow timed month or year bar (at least 5px) |
| Resize.HitTest | eventResizer.js:628-640 | week blocks are grabbed at the top and bottom edges; bars at the ends they truly hold, with the end winning |
| Resize.HitSelectsPath | eventResizer.js:628-640 | the handle grabbed decides the path: hours for week blocks, days for bars |
| Resize.HandlesApart | eventResizer.js:638-639 | on a bar at least two thresholds wide no press grabs both handles; on a narrower one the end wins |
| DragDrop.DragDataOf | dragDrop.js:39-51 | the drag remembers the id, whether the event is all-day, and the length of a timed event with both instants |
| DragDrop.DropIntentAllDay | dragDrop.js:156-174 | an hour slot makes the event timed, the week's all-day row makes it all-day, and a day cell keeps its kind |
| DragDrop.DropClock | dragDrop.js:176-222 | the drop starts at the slot's time, else the event's own time, else midnight |
| DragDrop.DropAllDay | dragDrop.js:194-217 | an all-day drop keeps the number of days of an all-day event and gives a timed one a single day, with time fields deleted |
| DragDrop.DropTimed | dragDrop.js:218-248 | a timed drop starts at the dropped day's midnight in the start zone plus the hour and minute `split(":").map(Number)` reads, ends the remembered length later (an hour when none) read in the end zone, and fails exactly when a part is NaN |
| DragDrop.MovedTo | dragDrop.js:234-247 | the moved event starts at the instant in the start zone and ends the length later in the end zone, with its details kept |
| DragDrop.DropOnClock | dragDrop.js:222-227 | with an `HH:mm` clock, or none, the drop starts on the dropped day at that clock in its start zone |
| DragDrop.DropAtMidnightEnd | dragDrop.js:222-227 | a clock of `24:00` runs on to the next day's midnight |
| DragDrop.DropAtShortHour | dragDrop.js:222-227 | a clock of `9:00` starts at 09:00 on the dropped day |
| DragDrop.UpdateEventDates | dragDrop.js:188-249 | a move keeps the details; the event is all-day exactly when the drop intends it, else timed in a known zone |
| DragDrop.MoveKeepsLength | dragDrop.js:45-51 | moving a drawn timed event keeps its length |
| DragDrop.MoveKeepsDays | dragDrop.js:197-211 | moving an all-day event keeps its number of days |
| Interaction.HourRow | eventResizer.js:736-737 | the hour row under the mouse is `floor(y / 40)` clamped to 0..23 |
| Interaction.ThrottledPreview | eventResizer.js:781 | previews go through the throttle and keep its state well formed |
| Interaction.MouseDown | eventResizer.js:604-656 | a left press on a handle starts a resize of the stored event, unless a resize or a drag runs |
| Interaction.TargetUnder | eventResizer.js:723-757 | the target is an hour row of a day column for the hour handles, and a day cell otherwise |
| Interaction.MouseMove | eventResizer.js:712-788 | a move during a resize remembers the target under the mouse, or keeps the last one; nothing else changes |
| Interaction.Assign | eventResizer.js:828 | `Object.assign` overwrites exactly the fields the resize result carries |
| Interaction.ResetResize | eventResizer.js:860-872 | a reset ends the resize and cancels the waiting preview |
| Interaction.MouseUp | eventResizer.js:790-833 | a mouse-up writes the resize into the first stored event with the id and no other, then ends the resize; a resize without an id is only reset |
| Interaction.AllDayResizeCommits | eventResizer.js:795-828 | an all-day resize with an id committed over a day leaves a drawn all-day event with the dragged end on that day |
| Interaction.Cleanup | dragDrop.js:255-279 | cleanup forgets the drag and clears `isResizing` |
| Interaction.DragStart | dragDrop.js:20-51 | a drag starts only on an event bar of a stored event and never during a resize |
| Interaction.Drop | dragDrop.js:141-186 | a drop moves only the first stored event with the dragged id, as `updateEventDates` says; a drag without an id is only cleaned up |
| Interaction.DragEnd | dragDrop.js:251-253 | the drag ends and the events are untouched |
| Interaction.GesturesExclusive | eventResizer.js:605 | while a resize runs no drag starts, and while a drag runs no resize starts |
| IcsEscape.EscapeIsPerCharacter | utils.js:163-166 | the four global replacements escape each character on its own |
| IcsEscape.UnescapeFixedInvertsEscape | utils.js:168-176 | the corrected unescape inverts the escape for every text, and a missing field gives "" |
| IcsEscape.UnescapeInvertsEscapeWithoutBackslash | utils.js:168-176 | the unescape as written inverts the escape on every text without a backslash |
| IcsEscape.UnescapePlainAsWritten | utils.js:168-176 | the unescape as written leaves a text without a backslash as it is |
| IcsEscape.UnescapeAsWrittenBreaksBackslashN | utils.js:171 | as written, an escaped literal backslash-n comes back as a backslash and a line feed |
| IcsDateTime.ReadYmdOfYmd | utils.js:118 | every date of a four-digit year prints as eight digits that read back as it |
| IcsDateTime.ReadYmd | utils.js:118 | only eight digits read as a date |
| IcsDateTime.ReadHms | utils.js:125 | a time of day read from six digits is a second of the day, 0..86399 |
| IcsDateTime.ReadStamp | utils.js:125 | a stamp reads as a day and a second of that day |
| IcsDateTime.YmdOfReadYmd | utils.js:118 | every eight digits that read as a date are that date's print |
| IcsDateTime.ReadStampOfStampText | utils.js:125 | printing to the second and reading back in the same zone keeps the instant up to its milliseconds |
| IcsDateTime.FormatIcsDateTime | utils.js:150-161 | "" for an invalid DateTime, `VALUE=DATE:` and the date for all-day, the local time in a known TZID, else UTC with 'Z' |
| IcsDateTime.TzidParam | utils.js:112-113 | the TZID is the first `TZID=` run up to `;`, `:` or whitespace |
| IcsDateTime.Classify | utils.js:104-147 | the TZID is the one in the parameters; a value is all-day exactly when VALUE=DATE is given or it is a bare eight-digit date with no 'Z' and no known TZID; an all-day instant is a midnight |
| IcsDateTime.ParseIcsDateTimeAsWritten | utils.js:103-147 | as written, a line without ':' reads as all-day with no value; its two faults are stated by the Findings lemmas below |
| IcsDateTime.ParseIcsDateTime | utils.js:103-147 | the corrected reading: a line without ':' is all-day with no value, and every all-day instant read is a UTC midnight |
| IcsDateTime.AllDayRoundTrip | utils.js:153 | an all-day value written for a day reads back as that day at UTC midnight, by the reading as written and by the corrected one |
| IcsDateTime.DateRoundTrip | utils.js:153 | a `VALUE=DATE` line written for a day reads back, as written and corrected, as that day's UTC midnight, all-day, without TZID |
| IcsDateTime.UtcRoundTrip | utils.js:158 | a timed value written in UTC reads back as the instant to the second, by both readings |
| IcsDateTime.ZonedRoundTrip | utils.js:155-156 | a timed value written in a known TZID reads back as the instant, with the zone name captured, by both readings |
| IcsDateTime.FloatingDateShiftsEast | utils.js:128-130 | as written, a floating bare date east of UTC is read as the day before |
| IcsDateTime.FloatingDateKeepsDay | utils.js:128-130 | the corrected reading keeps the date written |
| IcsDateTime.DateTimeParamDropsValue | utils.js:110 | as written, `VALUE=DATE-TIME` makes a UTC date-time fail to read |
| IcsDateTime.DateTimeParamReadsValue | utils.js:110 | the corrected reading takes that line as the instant written |
| IcsImport.Unfold | eventManager.js:399-416 | after unfolding no line is a continuation line: every line starts a content line |
| IcsImport.UnfoldInvertsFold | eventManager.js:399-416 | unfolding undoes folding at any points |
| IcsImport.UnfoldKeepsContentLines | eventManager.js:399-416 | lines that are already content lines are left as they are |
| IcsImport.ScanKeepsLast | eventManager.js:422-466 | a property is present exactly when some line outside an alarm sets it, and the last such line wins |
| IcsImport.FindText | eventManager.js:481 | `indexOf` finds the first occurrence of the separator |
| IcsImport.CutAtSeparator | eventManager.js:481-485 | the description is cut before the separator when it is there |
| IcsImport.Value | eventManager.js:488-492 | the or-fallback of JavaScript: a property counts only when present and not empty, and then it is its own value |
| IcsImport.Details | eventManager.js:487-493 | the texts are unescaped as written; the imported name is never empty; color and rrule come from their properties or the defaults |
| IcsImport.AllDayDates | eventManager.js:495-504 | an all-day VEVENT runs from its start's UTC day to the day before an all-day DTEND, never before the start |
| IcsImport.TimedDates | eventManager.js:505-525 | a timed VEVENT keeps both instants with their zones, or ends one hour later in the start zone |
| IcsImport.ImportVevent | eventManager.js:468-528 | a VEVENT is imported exactly when its DTSTART is there and reads by `parseIcsDateTime` as written; all-day results have start no later than end; timed results have both instants |
| IcsImport.ImportedEventsResolve | eventManager.js:468-528 | every imported event is one the renderer draws |
| IcsImport.MergeOne | eventManager.js:535-539 | an imported event replaces the first stored event with its id, or is appended; nothing else moves |
| IcsImport.ImportInto | eventManager.js:531-542 | an import with no events changes nothing; replacing gives exactly the imported list |
| IcsImport.MergeKeepsStored | eventManager.js:534-539 | merging keeps every stored event at its place, unchanged unless an imported event has its id |
| IcsImport.MergeOnlyKnownIds | eventManager.js:534-539 | every event after a merge has the id of a stored or an imported event |
| IcsImport.MergeLastImportWins | eventManager.js:534-539 | for every imported id the last imported event with it is the one found |
| IcsImport.MergeOneKeepsOthers | eventManager.js:535-538 | merging one event leaves the first event of every other id where it was |
| IcsExport.ExportEvent | eventManager.js:575-603 | an event is written exactly when it has a start and an end, as a block from `BEGIN:VEVENT` to `END:VEVENT` |
| IcsExport.ExportTzid | eventManager.js:592-593 | a zone is written as TZID exactly when it is set, not "UTC" and known to luxon |
| IcsExport.AllDayStartFormat | eventManager.js:598-599 | the all-day DTSTART carries the formatted local midnight of the start day |
| IcsExport.VeventLines | eventManager.js:580-587 | a VEVENT opens with `BEGIN:VEVENT` and holds UID, DTSTAMP, SUMMARY and its date lines |
| IcsExport.EventLines | eventManager.js:576-603 | an event's VEVENT has at least its frame, UID, DTSTAMP, SUMMARY and two date lines |
| IcsExport.ExportCalendar | eventManager.js:565-605 | nothing is written for an empty list; otherwise the header, the blocks and `END:VCALENDAR` |
| IcsExport.TimedLine | eventManager.js:589-596 | a timed date line carries the zone as TZID where it can, else the UTC time with 'Z' |
| IcsExport.AllDayEndFormat | eventManager.js:599-601 | the all-day DTEND is the day after the end day |
| IcsExport.VeventScan | eventManager.js:580-603 | scanning a written VEVENT gives exactly the values written |
| IcsExport.EscapedRoundTrip | eventManager.js:583-586 | an escaped optional field without a backslash unescapes, as written, to the field |
| IcsExport.EscapedRoundTripFixed | eventManager.js:583-586 | with the corrected unescape every escaped optional field comes back |
| IcsExport.TimedLineReads | eventManager.js:595-596 | a timed date line reads back as its instant to the second, with its TZID |
| IcsExport.AllDayLineReads | eventManager.js:600-601 | an all-day date line reads back as the UTC midnight of its day |
| IcsExport.ImportAllDay | eventManager.js:495-504 | all-day DTSTART `s` and DTEND `t` import as the days `s` through `t - 1` |
| IcsExport.AllDayDatesOfDays | eventManager.js:495-504 | all-day dates from UTC midnights `s` and `t` are the days `s` through `t - 1`, never before `s` |
| IcsExport.ImportTimed | eventManager.js:505-517 | timed DTSTART and DTEND import as both instants with their zones |
| IcsExport.TimedLinesParse | eventManager.js:595-596 | both timed date lines of an exported event read back as its instants to the second, with the zones written |
| IcsExport.DetailsRead | eventManager.js:487-493 | texts without a backslash read back as the event's own, up to the import's defaults |
| IcsExport.ExportImportRoundTrip | eventManager.js:565-603 | exporting a drawn event whose texts have no backslash, and importing its VEVENT's lines, gives back its id, texts and dates |
| EventStore.KeepAppend | eventManager.js:57 | `filter` of a concatenation is the concatenation of the filters: the stored order is kept |
| EventStore.KeepAll | eventManager.js:57 | a list whose every element passes is kept whole |
| EventStore.KeepTwice | eventManager.js:328 | filtering twice by the same test is filtering once |
| EventStore.Keep | eventManager.js:57 | `filter` keeps exactly the elements that pass, never more than it was given |
| EventStore.EventsForDate | eventManager.js:51-83 | the day list holds exactly the stored events listed on the clicked day (its order is stated by the next row) |
| EventStore.EventsForDateAppend | eventManager.js:57-82 | the day list of two stored lists is the two day lists one after the other |
| EventStore.AllDayListedIff | eventManager.js:72-76 | an all-day event is listed exactly on the days from its start through its end |
| EventStore.TimedListedIff | eventManager.js:59-65 | a timed event is listed exactly on the local days from its start to its last millisecond, except the day it starts when it starts in that day's last millisecond |
| EventStore.TimedListedOnStartDay | eventManager.js:59-65 | a timed event with start before end is listed on its start day |
| EventStore.FormEntry | eventManager.js:219-308 | the corrected entry: the dialog refuses a missing name, a missing start date, an all-day start after the end, an unknown zone and a start not before the end, and it refuses with "start not before end" exactly when a named, dated, timed form in known zones has its start instant at or after its end instant; it saves exactly the named, dated forms whose all-day days are in order or whose timed instants are in known zones and in order; a saved event keeps the typed details, and its fields read back as the instants built |
| EventStore.SavedEventResolves | eventManager.js:245-308 | every event the dialog stores, as written or corrected, is drawn, timed or all-day as the box said |
| EventStore.OneHourByDefault | eventManager.js:272-279 | with no end time and one zone, a saved timed event lasts exactly one hour |
| EventStore.TypedEndKept | eventManager.js:270-292 | a typed end after the start is kept as that wall-clock time in the end zone |
| EventStore.MinuteAlignedRoundTrip | eventManager.js:285-292 | an instant on a whole minute is rebuilt exactly from its local day and minute |
| EventStore.FormEntryAsWritten | eventManager.js:219-307 | as written, the dialog refuses exactly what the corrected entry refuses, with "start not before end" exactly when a timed form in known zones has start at or after end, and saves exactly the same forms; a stored event keeps the typed details and start date, stores the typed end date (or the start date) even when the end moved to start + 1 hour; a timed one has its start read back in the start zone, start before end, and an end clock that reads the end instant in the end zone |
| EventStore.AsWrittenIsCorrectedIff | eventManager.js:245-307 | the stored entry equals the corrected one exactly when the end day built is the typed one: always for all-day events and for a typed end after the start |
| EventStore.PartyEntry | eventManager.js:245-292 | a timed form in UTC starting at 23:30 with no end time saves an event ending at 00:30 the next day |
| EventStore.AsWrittenEndDayIsStale | eventManager.js:252-275 | a start at 23:30 with no end time stores an end day that differs from the end instant's day |
| EventStore.Upsert | eventManager.js:310-319 | an edit replaces the first event with the edited id, or appends when there is none; a new event is appended |
| EventStore.UpsertIsImportMerge | eventManager.js:311-316 | saving an edit writes the list as merging an imported event with that id does |
| EventStore.SaveForm | eventManager.js:219-319 | a save fails exactly when the dialog refuses the entry, with the same reason; a successful save stores the entry as written and adds at most one event |
| EventStore.SavedEventFound | eventManager.js:245-319 | after a save, the entry as written is the event found by its id |
| EventStore.Delete | eventManager.js:326-333 | once confirmed while editing, every event with the id is removed; otherwise nothing changes |
| EventStore.DeleteAppend | eventManager.js:328 | deleting keeps the remaining events in stored order |
| EventStore.DeleteTwice | eventManager.js:328 | deleting twice removes nothing more |
| EventStore.DeleteUndoesNewSave | eventManager.js:318-328 | deleting an event that was just saved as new gives back the list from before |
| EventStore.DeleteAfterEdit | eventManager.js:311-328 | saving an edit and then deleting leaves what deleting at once would |
| EventStore.DeleteAfterUpsert | eventManager.js:311-328 | writing an event with the edited id and then deleting that id leaves what deleting at once would |
| RangeText.FormatDateTimeRange | utils.js:42-96 | the error texts for missing input, missing instants and unreadable dates, all-day and timed; an all-day event shows only its date range |
| RangeText.TimedRangeText | utils.js:60-96 | a timed event shows its local days in the display zone and both clock times in its own zones; "ab HH:mm" never shows |
| RangeText.ReadDateOfText | utils.js:75-76 | a `dd.MM.yyyy` date with a four-digit year reads back as the date |
| RangeText.DateRangeRoundTrip | utils.js:74-86 | the date part of every range reads back as its two dates |
| RangeText.DateRangeInjective | utils.js:74-86 | two different ranges never print the same date part |
| CalendarGrid.Lead | calendarGrid.js:75-78 | the empty cells before the 1st number 0..6, Monday giving none |
| CalendarGrid.Trailing | calendarGrid.js:105-106 | the empty cells after the last day number 0..6 |
| CalendarGrid.MonthCells | calendarGrid.js:84-112 | the grid holds whole rows, at most six; each day sits at its position; the last row holds a day |
| CalendarGrid.ColumnIsWeekday | calendarGrid.js:85-98 | every day sits in the column of its weekday under the Monday-first header |
| CalendarGrid.SameRowIffSameWeek | calendarGrid.js:387-391 | two days share a row exactly when they share a Monday-to-Sunday week |
| CalendarGrid.HoverRow | calendarGrid.js:387-391 | the hovered row is the seven positions with the same `floor(p / 7)` |
| CalendarGrid.MouseOver | calendarGrid.js:380-393 | hovering a day highlights its row; an empty cell or the week view leaves the highlight |
| CalendarGrid.HoverRowInGrid | calendarGrid.js:388-391 | in a grid of whole rows the hovered row lies inside the grid |
| CalendarGrid.HoverHighlightsRow | calendarGrid.js:380-393 | hovering a day of a month grid highlights its whole row and nothing else |
| CalendarGrid.MouseOut | calendarGrid.js:395-409 | leaving a cell clears the highlight unless the mouse stays in the same row |
| CalendarGrid.ChangeYear | calendarGrid.js:419-449 | a year that is not a number is refused; a new year moves to January 1 in every view; otherwise the context stays |
| CalendarGrid.Rebuilds | calendarGrid.js:428-458 | the grid is rebuilt exactly for a forced redraw, a change of view or a new year |

## Left out

- The DOM, pixel geometry, element pools, count boxes, ghosts and CSS classes. The model keeps
  levels, columns, positions and hidden counts, and leaves out where they are drawn.
- Luxon's zone rules: zones are fixed offsets, so daylight saving time is not modelled.
  `fromISO`'s extended forms (offsets, fractional seconds, week dates) are not modelled.
  Only the forms the app writes are read.
- `sanitizeHtml`, `formatForDisplay`, `formatTime`, `areSameDate` and the description editor's
  `formatDoc`. They only format HTML or display text.
- `localStorage` (`saveEvents`/`loadEvents`), `FileReader`, `alert`, the download link and
  `api.js`/`app.js`, which are I/O. `confirm` answers and `Date.now()` are parameters, and random
  ids are the `freshId` parameters.
- Splitting an ICS file into VEVENT chunks and into lines (eventManager.js:376-397). The model
  starts from a VEVENT's raw lines.
- The error messages of the edit dialog. Only which error occurs is modelled.
- Browser date and time inputs, modelled as day numbers and minutes. The browser gives "" or a
  valid value.
- `formatDateTimeRange`'s `catch` returning "Fehler beim Formatieren". Nothing in the modelled
  body throws.
- `startingDayOfWeek < 0` (calendarGrid.js:78) and `gridOffset < 0` (eventRenderer.js:206).
  Luxon weekdays are 1..7, so both branches are dead.
- `elementFromPoint` probing under previews, the hover-cursor handler, the "today" and weekend
  cell classes, the week-number column, and the rest of `updateCalendar`. That rest is holidays,
  navigation and the actual re-rendering.
- The resize of an event that has no drawn `_startDt`: the model starts from a resolved event.
  A throw inside a handler that leaves `isResizing` set is also not modelled.
- The timed drag-and-drop of an event whose start zone luxon does not know. The model gives
  malformed fields, which is how luxon's invalid output is stored.
- Errors from `dataTransfer.setData`, which the model does not reach.
- Events.SortEvents: states sortedness and permutation, not the stability of `Array.prototype.sort`.
- WeekSweep.PointCompareIsPointOrder: the point comparator is inconsistent for two points of the
  same kind at the same time, so the model keeps their input order.
- WeekColumns.TimedBlocks: keys columns by segment index where the source keys them by event
  id. The two agree unless ids repeat.
- IcsExport.ExportImportRoundTrip: holds for events whose id, name, description and location have
  no backslash, whose zone names need no TZID escaping, and whose years have four digits. The
  unescape as written breaks an escaped backslash (first Findings row), so texts with one do not
  come back. The round trip also starts from the VEVENT's own lines, because splitting the file is
  not modelled. So it does not cover texts that the escape leaves alone but the splitting cuts:
  `BEGIN:VEVENT` in a text splits the file there (eventManager.js:376), and `END:VEVENT` in any
  case ends the chunk early, so a SUMMARY holding it loses the DTSTART written after it
  (eventManager.js:396). A carriage return in a text splits the line (eventManager.js:397).
  Other events are not covered.
- IcsExport.DetailsRead: stated for texts without a backslash, for the same reason.
- IcsExport.EscapedRoundTrip: stated for fields without a backslash, for the same reason.
  IcsExport.EscapedRoundTripFixed states every field for the corrected unescape.
- TimeText.NumberOf: decimals, exponents, radix prefixes and `Infinity` are read as NaN, though
  `Number` reads them. A clock part of that form is not modelled.
- Resize.DateHandleClocks: the clock texts are stated to read back for `HH:mm` texts only. Other
  texts that `Number` reads, like `9:00` or `24:00`, are normalised by luxon or run on into the
  next day.
- Resize.DateHandleInViewerZone: stated for `HH:mm` clock texts only, for the same reason.
- Resize.TimedDateResize: keeps the clock texts only for `HH:mm` texts, for the same reason.
- DragDrop.DropTimed: the day and minute of the start are stated for `HH:mm` clocks in
  DragDrop.DropOnClock. Luxon's limits on huge hour and minute values are not modelled.
- RangeText.DateRangeRoundTrip: stated for four-digit years, which is what `yyyy` prints
  unpadded and unsigned.
- Text.Upper: upper-cases `a`-`z` only. JavaScript's `toUpperCase` also maps other letters, some to
  several characters (`ß` to `SS`) and some onto ASCII (`ı` to `I`, `ſ` to `S`), so an ICS property
  name such as `uıd` that the page reads as `UID` (eventManager.js:438) is not recognised by the model.
- EventStore.FormEntry: the end fields of the one-hour default are computed in the start zone
  but stored under the end zone, as written. Only the one-zone case is proved to last an hour.

## Findings

| source | as written | input that shows it | evidently intended | confidence | as-written member | corrected member |
|---|---|---|---|---|---|---|
| utils.js:168-176 | four sequential replacements, `\\n` first, so an escaped backslash followed by `n` becomes a line feed | the text `\n` (backslash, n) is escaped to `\\n` and unescaped to backslash + line feed | one left-to-right pass that reads each escape once, inverting `escapeIcsField` | not executed | IcsEscape.UnescapeAsWrittenBreaksBackslashN | IcsEscape.UnescapeFixedInvertsEscape |
| eventRenderer.js:260 | on a continuation day the month and year layout tests the level with the event's start clock but registers from 0.0 | X from 00:00 to 12:00 on a Monday; A from Sunday 22:00 to Monday 10:00, with the card starting that Monday; both take level 0 and overlap | test each day with the interval it registers (0.0 on continuation days) | not executed | MonthLayout.AsWrittenLanesCollide | MonthLayout.CorrectedLanesDisjoint |
| utils.js:128-130 | a floating `DTSTART:yyyyMMdd` is read at local midnight and converted to UTC, and the importer then takes the UTC day | a browser zone east of UTC and `DTSTART:20240115` import as 2024-01-14 | read the bare date at UTC midnight, like an explicit `VALUE=DATE` | not executed | IcsDateTime.FloatingDateShiftsEast | IcsDateTime.FloatingDateKeepsDay |
| utils.js:110 | `includes("VALUE=DATE")` is also true for `VALUE=DATE-TIME` | `DTSTART;VALUE=DATE-TIME:20240115T100000Z` does not read, so the VEVENT is dropped | treat only `VALUE=DATE` as a date | not executed | IcsDateTime.DateTimeParamDropsValue | IcsDateTime.DateTimeParamReadsValue |
| eventManager.js:245-275 | the saved entry captures `end` before the one-hour default moves `endDateString` | a timed event on a day at 23:30 with no end time: `end` says that day while `end_utc` is 00:30 the next day | store the day of the end instant | not executed | EventStore.AsWrittenEndDayIsStale | EventStore.FormEntry |
