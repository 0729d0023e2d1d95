/** The mouse gestures that change events: resizing with the mouse
    (`handleMouseDownOnOverlay`, `handleDocumentMouseMove`, `handleDocumentMouseUp`,
    `resetResizeState`) and moving by drag and drop (`handleDragStart`,
    `handleDayDrop`, `handleDragEnd`, `cleanupDragState`). Both share the
    `isResizing` flag and the `is-dragging-active` mark, which keep a gesture from
    starting while the other runs. Pixels are reduced to what the handlers read
    from them: the element and offsets of a press, and the day and height under
    the mouse. */
module Interaction {
  import opened Wrappers
  import opened Events
  import opened EventEdits
  import opened Resize
  import opened DragDrop
  import Throttle

  /** The resize in progress: `resizeMode`, `resizedEventId`, `originalResizedEvent`,
      the view it started in and `lastValidResizeTargetInfo`. */
  datatype ResizeSession = ResizeSession(mode: Mode, id: string, orig: Resolved, view: View, target: Option<Target>)

  /** The page state the gestures share. */
  datatype Ui = Ui(
    events: seq<Event>,
    resizing: bool,
    dragging: bool,
    resize: Option<ResizeSession>,
    preview: Throttle.State<Prepared>,
    drag: Option<DragData>)

  /** `HOUR_HEIGHT_IN_WEEK_VIEW`. */
  const HourHeight: real := 40.0

  predicate Valid(env: Env, ui: Ui) {
    env.Valid()
    && Throttle.Armed(ui.preview, Throttle.PreviewLimitMs)
    && (ui.resize.Some? ==>
          Resolve(env, ui.resize.value.orig.event) == Some(ui.resize.value.orig)
          && (ui.resize.value.target.Some? ==> ui.resize.value.target.value.Valid()))
  }

  /** A press: the mouse button, the element under it and the offsets and size the
      hit test reads. */
  datatype Press = Press(button: int, overlay: Overlay, id: string, x: real, y: real, width: real, height: real)

  /** The mouse while resizing: the week grid's day column under it with the height
      inside the column, and the day cell under it. */
  datatype Mouse = Mouse(column: Option<(int, real)>, cell: Option<int>)

  /** The hour row at a height of a week-view day column, `floor(y / 40)` clamped to 0..23. */
  function HourRow(y: real): (h: int)
    ensures 0 <= h <= 23
    ensures 0.0 <= y < 24.0 * HourHeight ==> (h as real) * HourHeight <= y < (h as real + 1.0) * HourHeight
  {
    var row := (y / HourHeight).Floor;
    if row < 0 then 0 else if row > 23 then 23 else row
  }

  // ---- resize ----

  /** The preview the throttle is asked to draw for a resized event. */
  function PreviewOf(env: Env, e: Event): Prepared
    requires env.Valid()
  {
    PrepareForPreview(env, e)
  }

  function ThrottledPreview(ui: Ui, now: int, p: Prepared): (r: Throttle.State<Prepared>)
    requires Throttle.Armed(ui.preview, Throttle.PreviewLimitMs)
    ensures Throttle.Armed(r, Throttle.PreviewLimitMs)
  {
    Throttle.StepOf(Throttle.PreviewLimitMs, ui.preview, Throttle.Call(now, p)).0
  }

  /** `handleMouseDownOnOverlay`: a left press on a handle of a rendered event starts
      a resize, unless a resize or a drag is already running. */
  function MouseDown(env: Env, ui: Ui, view: View, press: Press, now: int): (r: Ui)
    requires Valid(env, ui)
    ensures Valid(env, r)
    ensures press.button != 0 || ui.resizing || ui.dragging ==> r == ui
    ensures r.events == ui.events && r.drag == ui.drag && r.dragging == ui.dragging
    ensures r != ui ==>
              r.resizing && r.resize.Some? && r.resize.value.id == press.id && r.resize.value.target.None?
              && r.resize.value.view == view
              && (exists i | 0 <= i < |ui.events| :: ui.events[i].id == press.id && r.resize.value.orig.event == ui.events[i])
              && HitTest(view, press.overlay, r.resize.value.orig.allDay, press.x, press.y, press.width, press.height)
                 == Some(r.resize.value.mode)
  {
    if press.button != 0 || ui.resizing || ui.dragging then ui
    else
      match FirstWithId(ui.events, press.id)
      case None => ui
      case Some(i) =>
        match Resolve(env, ui.events[i])
        case None => ui
        case Some(orig) =>
          match HitTest(view, press.overlay, orig.allDay, press.x, press.y, press.width, press.height)
          case None => ui
          case Some(mode) =>
            var first := Prepared(orig.event, orig.allDay, Some(orig.startMs), Some(orig.endMs));
            ui.(resizing := true, resize := Some(ResizeSession(mode, press.id, orig, view, None)),
                preview := ThrottledPreview(ui, now, first))
  }

  /** The target under the mouse: an hour row of a day column for the hour
      handles, a day cell otherwise. */
  function TargetUnder(s: ResizeSession, mouse: Mouse): (t: Option<Target>)
    ensures t.Some? ==> t.value.Valid()
    ensures t.Some? && HourPath(s.view, s.orig, s.mode) ==> mouse.column.Some? && t.value.day == mouse.column.value.0
    ensures t.Some? && !HourPath(s.view, s.orig, s.mode) ==> mouse.cell.Some? && t == Some(Target(mouse.cell.value, 0, None))
  {
    if HourPath(s.view, s.orig, s.mode) then
      match mouse.column
      case Some((day, y)) => Some(Target(day, HourRow(y), None))
      case None => None
    else
      match mouse.cell
      case Some(day) => Some(Target(day, 0, None))
      case None => None
  }

  /** `handleDocumentMouseMove`: remembers the target under the mouse and asks the
      throttle for a preview of the resized event; where the mouse is over no
      target the last one is previewed again. Where the calculation throws, the
      target is remembered but no preview is asked for. */
  function MouseMove(env: Env, ui: Ui, mouse: Mouse, now: int): (r: Ui)
    requires Valid(env, ui)
    ensures Valid(env, r)
    ensures r.events == ui.events && r.resizing == ui.resizing && r.dragging == ui.dragging && r.drag == ui.drag
    ensures !ui.resizing || ui.resize.None? ==> r == ui
    ensures ui.resizing && ui.resize.Some? ==>
              r.resize.Some? && r.resize.value == ui.resize.value.(target := r.resize.value.target)
              && (TargetUnder(ui.resize.value, mouse).Some? ==> r.resize.value.target == TargetUnder(ui.resize.value, mouse))
              && (TargetUnder(ui.resize.value, mouse).None? ==> r.resize.value.target == ui.resize.value.target)
  {
    if !ui.resizing || ui.resize.None? then ui
    else
      var s := ui.resize.value;
      var target := match TargetUnder(s, mouse)
                    case Some(t) => Some(t)
                    case None => s.target;
      var s' := s.(target := target);
      if target.None? then ui
      else
        match CalculateResized(env, s.orig, target.value, s.mode, s.view)
        case None => ui.(resize := Some(s'))
        case Some(e) => ui.(resize := Some(s'), preview := ThrottledPreview(ui, now, PreviewOf(env, e)))
  }

  /** `Object.assign(target, final)`: every field the final properties carry
      overwrites the stored one; a field they lack (deleted or never set) keeps the
      stored value. */
  function Assign(target: Event, final: Event): (r: Event)
    ensures SameDetails(r, final) || (r.rrule == target.rrule && final.rrule.None?)
    ensures final.startUtc.Truthy() ==> r.startUtc == final.startUtc
    ensures !final.startUtc.Truthy() ==> r.startUtc == target.startUtc
    ensures final.time.Some? ==> r.time == final.time
    ensures final.time.None? ==> r.time == target.time
  {
    Event(final.id, final.name, final.description, final.location, final.color,
          AssignField(target.start, final.start), AssignField(target.end, final.end),
          AssignOpt(target.time, final.time), AssignOpt(target.endTime, final.endTime),
          AssignOpt(target.startTimezone, final.startTimezone), AssignOpt(target.endTimezone, final.endTimezone),
          AssignField(target.startUtc, final.startUtc), AssignField(target.endUtc, final.endUtc),
          AssignOpt(target.rrule, final.rrule))
  }

  /** One property under `Object.assign`: a property the final object carries wins. */
  function AssignField<T>(stored: Field<T>, carried: Field<T>): Field<T> {
    if carried.Truthy() then carried else stored
  }

  function AssignOpt<T>(stored: Option<T>, carried: Option<T>): Option<T> {
    if carried.Some? then carried else stored
  }

  /** `resetResizeState`: the resize is over and a waiting preview is cancelled. */
  function ResetResize(ui: Ui): (r: Ui)
    ensures !r.resizing && r.resize.None? && r.preview.pending.None?
    ensures r.events == ui.events && r.dragging == ui.dragging && r.drag == ui.drag
  {
    ui.(resizing := false, resize := None, preview := ui.preview.(pending := None))
  }

  /** `handleDocumentMouseUp`: writes the resize into the first stored event with
      the id and ends the resize. A resize without a (non-empty) id is only reset.
      Where the calculation throws, nothing is written and the resize is not reset. */
  function MouseUp(env: Env, ui: Ui): (r: Ui)
    requires Valid(env, ui)
    ensures Valid(env, r)
    ensures |r.events| == |ui.events| && r.dragging == ui.dragging && r.drag == ui.drag
    ensures r == ui || (!r.resizing && r.resize.None? && r.preview.pending.None?)
    ensures r.resizing ==> r == ui && ui.resize.Some? && ui.resize.value.target.Some?
    ensures ui.resize.Some? && ui.resize.value.id == "" ==> r == ResetResize(ui)
    ensures forall j | 0 <= j < |ui.events| && r.events[j] != ui.events[j] ::
              ui.resize.Some? && ui.resize.value.id != "" && ui.events[j].id == ui.resize.value.id
              && (forall k | 0 <= k < j :: ui.events[k].id != ui.resize.value.id)
  {
    if !ui.resizing || ui.resize.None? || ui.resize.value.id == "" then ResetResize(ui)
    else
      var s := ui.resize.value;
      match FirstWithId(ui.events, s.id)
      case None => ResetResize(ui)
      case Some(i) =>
        if s.target.None? then ResetResize(ui)
        else
          match CalculateResized(env, s.orig, s.target.value, s.mode, s.view)
          case None => ui
          case Some(final) =>
            ResetResize(ui.(events := ui.events[i := Assign(ui.events[i], final)]))
  }

  /** A resize of a rendered all-day event that reaches the mouse-up over a day
      leaves the first event with its id a renderable all-day event whose days are
      in order, the dragged end on the target day, and the resize finished. */
  lemma AllDayResizeCommits(env: Env, ui: Ui, i: nat)
    requires Valid(env, ui) && ui.resizing && ui.resize.Some? && ui.resize.value.target.Some?
    requires ui.resize.value.orig.allDay && ui.resize.value.id != ""
    requires FirstWithId(ui.events, ui.resize.value.id) == Some(i) && ui.events[i] == ui.resize.value.orig.event
    ensures var r := MouseUp(env, ui);
            var s := ui.resize.value;
            !r.resizing && Resolve(env, r.events[i]).Some? && Resolve(env, r.events[i]).value.allDay
            && r.events[i].start.value <= r.events[i].end.value
            && (s.mode == Start ==> r.events[i].start == Present(s.target.value.day))
            && (s.mode != Start ==> r.events[i].end == Present(s.target.value.day))
  {
    var s := ui.resize.value;
    var final := CalculateResized(env, s.orig, s.target.value, s.mode, s.view).value;
    assert final == AllDayResize(s.orig, s.target.value, s.mode);
  }

  // ---- drag and drop ----

  /** `cleanupDragState`: forgets the drag and also clears `isResizing`. */
  function Cleanup(ui: Ui): (r: Ui)
    ensures r.drag.None? && !r.dragging && !r.resizing
    ensures r.events == ui.events && r.resize == ui.resize && r.preview == ui.preview
  {
    ui.(drag := None, dragging := false, resizing := false)
  }

  /** `handleDragStart` on an element that is (`onEvent`) or is not an event bar. */
  function DragStart(ui: Ui, onEvent: bool, id: string): (r: Ui)
    ensures ui.resizing || !onEvent ==> r == ui
    ensures r.events == ui.events && r.resize == ui.resize && r.preview == ui.preview
    ensures r.drag.Some? && r != ui ==>
              r.dragging && exists i | 0 <= i < |ui.events| :: r.drag == Some(DragDataOf(ui.events[i])) && ui.events[i].id == id
  {
    if ui.resizing || !onEvent then ui
    else
      match FirstWithId(ui.events, id)
      case None => Cleanup(ui)
      case Some(i) => ui.(drag := Some(DragDataOf(ui.events[i])), dragging := true)
  }

  /** `handleDayDrop` on a slot showing `day` (None when it has no date): moves the
      first event with the dragged id. A drag without a (non-empty) id is only
      cleaned up. Where the move throws the page keeps the drag until the drag ends. */
  function Drop(env: Env, ui: Ui, slot: DropSlot, day: Option<int>): (r: Ui)
    requires env.Valid()
    ensures |r.events| == |ui.events| && r.resize == ui.resize && r.preview == ui.preview
    ensures r == ui || (r.drag.None? && !r.dragging && !r.resizing)
    ensures ui.drag.Some? && ui.drag.value.id == "" ==> r == Cleanup(ui)
    ensures forall j | 0 <= j < |ui.events| && r.events[j] != ui.events[j] ::
              ui.drag.Some? && ui.drag.value.id != "" && day.Some? && ui.events[j].id == ui.drag.value.id
              && (forall k | 0 <= k < j :: ui.events[k].id != ui.drag.value.id)
              && Some(r.events[j]) == UpdateEventDates(env, ui.events[j], day.value, slot, ui.drag.value)
  {
    if ui.drag.None? || ui.drag.value.id == "" then Cleanup(ui)
    else
      match FirstWithId(ui.events, ui.drag.value.id)
      case None => Cleanup(ui)
      case Some(i) =>
        if day.None? then Cleanup(ui)
        else
          match UpdateEventDates(env, ui.events[i], day.value, slot, ui.drag.value)
          case None => ui
          case Some(moved) => Cleanup(ui.(events := ui.events[i := moved]))
  }

  /** `handleDragEnd`. */
  function DragEnd(ui: Ui): (r: Ui)
    ensures r.drag.None? && !r.dragging && !r.resizing && r.events == ui.events
  {
    Cleanup(ui)
  }

  /** While a resize runs no drag starts, and while a drag runs no resize starts. */
  lemma GesturesExclusive(env: Env, ui: Ui, view: View, press: Press, now: int, onEvent: bool, id: string)
    requires Valid(env, ui)
    ensures ui.resizing ==> DragStart(ui, onEvent, id) == ui
    ensures ui.dragging ==> MouseDown(env, ui, view, press, now) == ui
  {
  }
}
