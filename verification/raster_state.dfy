/** The shared window state of the rasterizer frontend
    (frontends/rasterizer/src/state.rs) and the event results and hover
    update of the rasterizer (frontends/rasterizer/src/lib.rs): redraw
    scheduling, focus and its event log, the per-frame render tables, the
    tab order of rendered widgets, and hover changes. Instants and durations
    are natural numbers. */
module RasterState {
  import opened Common
  import GooeyStyleSheet

  /** A widget, keyed by its numeric id in the render tables. */
  datatype WidgetId = WidgetId(id: nat)

  /** `FocusEvent`. */
  datatype FocusEvent = Focused(widget: WidgetId) | Blurred(widget: WidgetId)

  /** `RedrawStatus`. */
  datatype RedrawStatus = Clean | Dirty | Scheduled(at: nat)

  /** `Intent`. */
  datatype Intent = Default | Cancel

  /** `SystemTheme`. */
  datatype SystemTheme = Light | Dark

  /** The mouse buttons of the windowing layer. */
  datatype MouseButton = LeftButton | RightButton | MiddleButton | OtherButton(code: nat)

  /** A rendered widget's area: its location (already cast to integers) and
      size. */
  datatype ContentArea = ContentArea(x: int, y: int, width: nat, height: nat)

  /** `TabEntry`: the render-order index, the render origin and the
      optional explicit tab index. */
  datatype TabEntry = TabEntry(orderIndex: nat, x: int, y: int, tabOrder: Option<int>)

  /** `std::cmp::Ordering`. */
  datatype Ordering = Less | Equal | Greater

  /** The ordering of the comparison the other way round. */
  function Reverse(o: Ordering): Ordering
  {
    match o
    case Less => Greater
    case Equal => Equal
    case Greater => Less
  }

  /** `Ord::cmp` on integers. */
  function CompareInt(a: int, b: int): Ordering
  {
    if a < b then Less else if a == b then Equal else Greater
  }

  /** `needs_redraw`: only a dirty window needs to be redrawn now. */
  predicate NeedsRedraw(s: RedrawStatus)
  {
    s.Dirty?
  }

  /** `duration_until_next_redraw`: none when clean, zero when dirty, the
      time left (zero once passed) when scheduled. */
  function DurationUntilNextRedraw(s: RedrawStatus, now: nat): (r: Option<nat>)
    ensures r.None? <==> s.Clean?
    ensures r == Some(0) <== s.Dirty? || (s.Scheduled? && s.at <= now)
    ensures s.Scheduled? && s.at > now ==> r == Some(s.at - now)
  {
    match s
    case Clean => None
    case Dirty => Some(0)
    case Scheduled(at) => Some(if at >= now then at - now else 0)
  }

  /** The status after `schedule_redraw_at`: a clean window is scheduled, a
      dirty one stays dirty, a scheduled one keeps the earlier instant. */
  function ScheduleAt(s: RedrawStatus, at: nat): RedrawStatus
  {
    match s
    case Clean => Scheduled(at)
    case Dirty => Dirty
    case Scheduled(previous) => Scheduled(Min(at, previous))
  }

  /** Scheduling never makes the next redraw later, never cleans a window,
      and the order of two requests does not matter. */
  lemma ScheduleProperties(s: RedrawStatus, at: nat, other: nat, now: nat)
    ensures !ScheduleAt(s, at).Clean?
    ensures ScheduleAt(s, at).Scheduled? ==> ScheduleAt(s, at).at <= at
    ensures s.Scheduled? ==> ScheduleAt(s, at).Scheduled? && ScheduleAt(s, at).at <= s.at
    ensures ScheduleAt(ScheduleAt(s, at), other) == ScheduleAt(ScheduleAt(s, other), at)
    ensures ScheduleAt(ScheduleAt(s, at), at) == ScheduleAt(s, at)
    ensures s.Scheduled? ==> DurationUntilNextRedraw(ScheduleAt(s, at), now).value <= DurationUntilNextRedraw(s, now).value
  {
  }

  /** The current focus after replaying focus events: a focus event focuses
      its widget, a blur event clears the focus if it is on that widget. */
  function ReplayFocus(focus: Option<WidgetId>, events: seq<FocusEvent>): Option<WidgetId>
  {
    if events == [] then focus
    else
      var last := events[|events| - 1];
      var before := ReplayFocus(focus, events[..|events| - 1]);
      match last
      case Focused(w) => Some(w)
      case Blurred(w) => if before == Some(w) then None else before
  }

  /** Replaying a log extended by some events replays them after the log. */
  lemma {:induction false} ReplayAppend(focus: Option<WidgetId>, events: seq<FocusEvent>, more: seq<FocusEvent>)
    ensures ReplayFocus(focus, events + more) == ReplayFocus(ReplayFocus(focus, events), more)
    decreases |more|
  {
    if more != [] {
      ReplayAppend(focus, events, more[..|more| - 1]);
      assert (events + more)[..|events + more| - 1] == events + more[..|more| - 1];
      assert (events + more)[|events + more| - 1] == more[|more| - 1];
    } else {
      assert events + more == events;
    }
  }

  /** `TabEntry::cmp`: explicit tab indices first (an entry with one comes
      before one without); otherwise by y when the origins are 10 or more
      apart vertically, else by x. */
  function TabCmp(a: TabEntry, b: TabEntry): Ordering
  {
    match (a.tabOrder, b.tabOrder)
    case (Some(p), Some(q)) => CompareInt(p, q)
    case (Some(_), None) => Less
    case (None, Some(_)) => Greater
    case (None, None) =>
      var dy := a.y - b.y;
      if dy <= -10 then Less else if dy <= 9 then CompareInt(a.x, b.x) else Greater
  }

  /** Comparing the other way round gives the reverse ordering, and an
      entry is equal to itself. */
  lemma TabCmpAntisymmetric(a: TabEntry, b: TabEntry)
    ensures TabCmp(b, a) == Reverse(TabCmp(a, b))
    ensures TabCmp(a, a) == Equal
  {
  }

  /** Three entries the comparison orders in a cycle: the first is before
      the second (10 above it), the second before the third (close
      vertically, left of it) and the third before the first (close
      vertically, left of it). */
  lemma TabCmpNotTransitive()
    ensures var a := TabEntry(0, 10, 0, None);
      var b := TabEntry(1, 0, 10, None);
      var c := TabEntry(2, 5, 5, None);
      TabCmp(a, b) == Less && TabCmp(b, c) == Less && TabCmp(c, a) == Less
  {
  }

  /** Logging a focus change (the new focus, then the old one blurred)
      after a log that replays to the old focus replays to the new one. */
  lemma {:induction false} SwitchReplays(start: Option<WidgetId>, events: seq<FocusEvent>, from: Option<WidgetId>,
                                         to: Option<WidgetId>)
    requires ReplayFocus(start, events) == from && from != to
    ensures ReplayFocus(start, events + ((if to.Some? then [Focused(to.value)] else [])
                                         + (if from.Some? then [Blurred(from.value)] else []))) == to
  {
    var added := if to.Some? then [Focused(to.value)] else [];
    var blurred := if from.Some? then [Blurred(from.value)] else [];
    ReplayAppend(start, events, added + blurred);
    ReplayAppend(from, added, blurred);
    if to.Some? {
      assert added[..0] == [];
      assert ReplayFocus(from, added) == to;
    } else {
      assert added == [];
      assert ReplayFocus(from, added) == from;
    }
    if from.Some? {
      assert blurred[..0] == [];
    } else {
      assert blurred == [];
    }
  }

  /** The row band of a y coordinate: bands 10 units high. */
  function Band(y: int): int
  {
    y / 10
  }

  /** A transitive tab ordering: explicit tab indices first, then row bands
      of 10 units, then x. */
  function TabCmpByBand(a: TabEntry, b: TabEntry): Ordering
  {
    match (a.tabOrder, b.tabOrder)
    case (Some(p), Some(q)) => CompareInt(p, q)
    case (Some(_), None) => Less
    case (None, Some(_)) => Greater
    case (None, None) =>
      if Band(a.y) != Band(b.y) then CompareInt(Band(a.y), Band(b.y)) else CompareInt(a.x, b.x)
  }

  /** The band ordering is antisymmetric and transitive, so sorting by it
      is well defined. */
  lemma TabCmpByBandIsOrder(a: TabEntry, b: TabEntry, c: TabEntry)
    ensures TabCmpByBand(b, a) == Reverse(TabCmpByBand(a, b))
    ensures TabCmpByBand(a, b) == Less && TabCmpByBand(b, c) == Less ==> TabCmpByBand(a, c) == Less
    ensures TabCmpByBand(a, b) != Greater && TabCmpByBand(b, c) != Greater ==> TabCmpByBand(a, c) != Greater
  {
  }

  /** The band ordering agrees with `TabEntry::cmp` whenever that compares
      tab indices or y: the two differ only for entries within 9 units
      vertically that fall in different bands. */
  lemma TabCmpByBandAgrees(a: TabEntry, b: TabEntry)
    ensures a.tabOrder.Some? || b.tabOrder.Some? ==> TabCmpByBand(a, b) == TabCmp(a, b)
    ensures a.y - b.y <= -10 || a.y - b.y >= 10 ==> TabCmpByBand(a, b) == TabCmp(a, b)
    ensures Band(a.y) == Band(b.y) ==> TabCmpByBand(a, b) == TabCmp(a, b)
  {
    if a.tabOrder.None? && b.tabOrder.None? && a.y - b.y <= -10 {
      BandMonotone(a.y, b.y);
    }
    if a.tabOrder.None? && b.tabOrder.None? && a.y - b.y >= 10 {
      BandMonotone(b.y, a.y);
    }
  }

  /** Coordinates 10 or more apart lie in different bands, in order. */
  lemma BandMonotone(y: int, z: int)
    requires y + 10 <= z
    ensures Band(y) < Band(z)
  {
    assert (z - 10) / 10 == z / 10 - 1;
    assert y / 10 <= (z - 10) / 10;
  }

  /** Each id maps to a place in the render order holding that id. */
  predicate IdsIndexOrder(ids: map<nat, nat>, order: seq<WidgetId>)
  {
    forall k :: k in ids ==> ids[k] < |order| && order[ids[k]].id == k
  }

  /** Each tab entry's index is a place in the render order holding its
      id. */
  predicate TabEntriesIndexOrder(tabOrders: map<nat, TabEntry>, order: seq<WidgetId>)
  {
    forall k :: k in tabOrders ==> tabOrders[k].orderIndex < |order| && order[tabOrders[k].orderIndex].id == k
  }

  /** Rendering a widget at the end of the order keeps every id pointing
      at its place, the widget's at the new one. */
  lemma RenderedKeepsIndex(ids: map<nat, nat>, order: seq<WidgetId>, widget: WidgetId)
    requires IdsIndexOrder(ids, order)
    ensures IdsIndexOrder(ids[widget.id := |order|], order + [widget])
  {
    var order' := order + [widget];
    forall k | k in ids && k != widget.id
      ensures order'[ids[k]] == order[ids[k]]
    {
    }
  }

  /** Rendering a widget at the end of the order keeps every tab entry
      pointing at its place, and a new entry for the widget points at the
      new one. */
  lemma RenderedKeepsTabEntries(tabOrders: map<nat, TabEntry>, order: seq<WidgetId>, widget: WidgetId, entry: TabEntry,
                                focusable: bool)
    requires TabEntriesIndexOrder(tabOrders, order) && entry.orderIndex == |order|
    ensures TabEntriesIndexOrder(if focusable then tabOrders[widget.id := entry] else tabOrders, order + [widget])
  {
    var order' := order + [widget];
    forall k | k in tabOrders
      ensures order'[tabOrders[k].orderIndex] == order[tabOrders[k].orderIndex]
    {
    }
  }

  /** The frontend's window state (`Data`, behind `State`). */
  class WindowState {
    var order: seq<WidgetId>
    var ids: map<nat, nat>
    var area: map<nat, ContentArea>
    var hierarchy: map<Option<nat>, seq<nat>>
    var tabOrders: map<nat, TabEntry>
    var systemTheme: SystemTheme
    var default: Option<WidgetId>
    var cancel: Option<WidgetId>
    var hover: set<WidgetId>
    var focus: Option<WidgetId>
    var focusEvents: seq<FocusEvent>
    var active: Option<WidgetId>
    var mouseButtonHandlers: map<MouseButton, WidgetId>
    var redrawStatus: RedrawStatus
    /** The focus when the focus events were last drained. */
    ghost var drainedFocus: Option<WidgetId>

    /** Every id in the render tables points at its place in the render
        order, and replaying the pending focus events from the focus at the
        last drain gives the current focus. */
    ghost predicate Valid()
      reads this
    {
      && IdsIndexOrder(ids, order)
      && TabEntriesIndexOrder(tabOrders, order)
      && ReplayFocus(drainedFocus, focusEvents) == focus
    }

    /** `State::new`: empty tables, nothing focused, hovered or active, a
        clean window and a light theme. */
    constructor()
      ensures Valid()
      ensures order == [] && ids == map[] && area == map[] && hierarchy == map[] && tabOrders == map[]
      ensures default == None && cancel == None && hover == {} && focus == None && focusEvents == []
      ensures active == None && mouseButtonHandlers == map[] && redrawStatus == Clean && systemTheme == Light
    {
      order, ids, area, hierarchy, tabOrders := [], map[], map[], map[], map[];
      systemTheme := Light;
      default, cancel := None, None;
      hover, focus, focusEvents, active := {}, None, [], None;
      mouseButtonHandlers := map[];
      redrawStatus := Clean;
      drainedFocus := None;
    }

    /** `new_frame`: the render tables and the default and cancel widgets
        are cleared and the window is clean; focus, hover and the rest are
        kept. */
    method NewFrame()
      requires Valid()
      modifies this`default, this`cancel, this`order, this`tabOrders, this`ids, this`hierarchy, this`area, this`redrawStatus
      ensures Valid()
      ensures order == [] && ids == map[] && area == map[] && hierarchy == map[] && tabOrders == map[]
      ensures default == None && cancel == None && redrawStatus == Clean
    {
      default, cancel := None, None;
      order, tabOrders, ids, hierarchy, area := [], map[], map[], map[], map[];
      redrawStatus := Clean;
    }

    /** `widget_rendered`: the widget is appended to the render order, its
        id maps to that index and to its area, it is listed under its
        parent, a focusable widget gets a tab entry at that index and its
        origin, and an intent makes it the default or cancel widget. */
    method WidgetRendered(widget: WidgetId, contentArea: ContentArea, shouldAcceptFocus: bool, parent: Option<WidgetId>,
                          tabOrder: Option<int>, intent: Option<Intent>)
      requires Valid()
      modifies this`tabOrders, this`hierarchy, this`area, this`ids, this`default, this`cancel, this`order
      ensures Valid()
      ensures order == old(order) + [widget]
      ensures ids == old(ids)[widget.id := |old(order)|] && area == old(area)[widget.id := contentArea]
      ensures var key := if parent.Some? then Some(parent.value.id) else None;
        hierarchy == old(hierarchy)[key := (if key in old(hierarchy) then old(hierarchy)[key] else []) + [widget.id]]
      ensures tabOrders == if shouldAcceptFocus
        then old(tabOrders)[widget.id := TabEntry(|old(order)|, contentArea.x, contentArea.y, tabOrder)]
        else old(tabOrders)
      ensures default == (if intent == Some(Default) then Some(widget) else old(default))
      ensures cancel == (if intent == Some(Cancel) then Some(widget) else old(cancel))
    {
      var index := |order|;
      var entry := TabEntry(index, contentArea.x, contentArea.y, tabOrder);
      RenderedKeepsIndex(ids, order, widget);
      RenderedKeepsTabEntries(tabOrders, order, widget, entry, shouldAcceptFocus);
      var key := if parent.Some? then Some(parent.value.id) else None;
      var children := if key in hierarchy then hierarchy[key] else [];
      var tabOrders' := if shouldAcceptFocus then tabOrders[widget.id := entry] else tabOrders;
      var default' := if intent == Some(Default) then Some(widget) else default;
      var cancel' := if intent == Some(Cancel) then Some(widget) else cancel;
      tabOrders, hierarchy, area, ids, default, cancel, order :=
        tabOrders', hierarchy[key := children + [widget.id]], area[widget.id := contentArea], ids[widget.id := index],
        default', cancel', order + [widget];
    }

    /** `set_needs_redraw`. */
    method SetNeedsRedraw()
      requires Valid()
      modifies this`redrawStatus
      ensures Valid() && redrawStatus == Dirty
    {
      redrawStatus := Dirty;
    }

    /** `schedule_redraw_at`. */
    method ScheduleRedrawAt(at: nat)
      requires Valid()
      modifies this`redrawStatus
      ensures Valid() && redrawStatus == ScheduleAt(old(redrawStatus), at)
    {
      match redrawStatus {
        case Clean =>
          redrawStatus := Scheduled(at);
        case Dirty =>
        case Scheduled(previous) =>
          redrawStatus := Scheduled(Min(at, previous));
      }
    }

    /** `set_hover`: a different hover set is stored and dirties the
        window; the same set changes nothing. */
    method SetHover(newHover: set<WidgetId>)
      requires Valid()
      modifies this`hover, this`redrawStatus
      ensures Valid() && hover == newHover
      ensures redrawStatus == if newHover != old(hover) then Dirty else old(redrawStatus)
    {
      if hover != newHover {
        redrawStatus := Dirty;
        hover := newHover;
      }
    }

    /** `set_active`: a different active widget is stored and dirties the
        window. */
    method SetActive(newActive: Option<WidgetId>)
      requires Valid()
      modifies this`active, this`redrawStatus
      ensures Valid() && active == newActive
      ensures redrawStatus == if newActive != old(active) then Dirty else old(redrawStatus)
    {
      if active != newActive {
        redrawStatus := Dirty;
        active := newActive;
      }
    }

    /** `set_system_theme`: a different theme is stored and dirties the
        window. */
    method SetSystemTheme(theme: SystemTheme)
      requires Valid()
      modifies this`systemTheme, this`redrawStatus
      ensures Valid() && systemTheme == theme
      ensures redrawStatus == if theme != old(systemTheme) then Dirty else old(redrawStatus)
    {
      if systemTheme != theme {
        redrawStatus := Dirty;
        systemTheme := theme;
      }
    }

    /** `set_focus`: a different focus logs the newly focused widget, then
        the blurred one, stores the focus and dirties the window; the same
        focus changes nothing. */
    method SetFocus(newFocus: Option<WidgetId>)
      requires Valid()
      modifies this`focus, this`focusEvents, this`redrawStatus
      ensures Valid() && focus == newFocus
      ensures newFocus == old(focus) ==> focusEvents == old(focusEvents) && redrawStatus == old(redrawStatus)
      ensures newFocus != old(focus) ==> (
        && redrawStatus == Dirty
        && focusEvents == old(focusEvents) + (if newFocus.Some? then [Focused(newFocus.value)] else [])
                          + (if old(focus).Some? then [Blurred(old(focus).value)] else []))
    {
      if focus != newFocus {
        redrawStatus := Dirty;
        var added := if newFocus.Some? then [Focused(newFocus.value)] else [];
        var blurred := if focus.Some? then [Blurred(focus.value)] else [];
        SwitchReplays(drainedFocus, focusEvents, focus, newFocus);
        var events := focusEvents + (added + blurred);
        assert events == old(focusEvents) + added + blurred;
        focusEvents, focus := events, newFocus;
      }
    }

    /** `blur`: a focused window logs the blurred widget, loses its focus
        and is dirtied; otherwise nothing changes. */
    method Blur()
      requires Valid()
      modifies this`focus, this`focusEvents, this`redrawStatus
      ensures Valid() && focus == None
      ensures old(focus).None? ==> focusEvents == old(focusEvents) && redrawStatus == old(redrawStatus)
      ensures old(focus).Some? ==> focusEvents == old(focusEvents) + [Blurred(old(focus).value)] && redrawStatus == Dirty
    {
      if focus.Some? {
        ReplayAppend(drainedFocus, focusEvents, [Blurred(focus.value)]);
        focusEvents := focusEvents + [Blurred(focus.value)];
        focus := None;
        redrawStatus := Dirty;
      }
    }

    /** `blur_and_deactivate`: with a focus or an active widget, the focus
        is blurred (and logged), nothing is active and the window is
        dirtied; otherwise nothing changes. */
    method BlurAndDeactivate()
      requires Valid()
      modifies this`focus, this`focusEvents, this`active, this`redrawStatus
      ensures Valid() && focus == None && active == None
      ensures focusEvents == old(focusEvents) + (if old(focus).Some? then [Blurred(old(focus).value)] else [])
      ensures redrawStatus == if old(focus).Some? || old(active).Some? then Dirty else old(redrawStatus)
    {
      if focus.Some? || active.Some? {
        if focus.Some? {
          ReplayAppend(drainedFocus, focusEvents, [Blurred(focus.value)]);
          focusEvents := focusEvents + [Blurred(focus.value)];
          focus := None;
        }
        active := None;
        redrawStatus := Dirty;
      }
    }

    /** `focus_events`: the pending focus events, in order; the log is left
        empty. */
    method FocusEvents() returns (events: seq<FocusEvent>)
      requires Valid()
      modifies this`focusEvents, this`drainedFocus
      ensures Valid() && focusEvents == []
      ensures events == old(focusEvents) && ReplayFocus(old(drainedFocus), events) == focus
    {
      events := focusEvents;
      focusEvents := [];
      drainedFocus := focus;
    }

    /** `register_mouse_handler`. */
    method RegisterMouseHandler(button: MouseButton, widget: WidgetId)
      requires Valid()
      modifies this`mouseButtonHandlers
      ensures Valid() && mouseButtonHandlers == old(mouseButtonHandlers)[button := widget]
    {
      mouseButtonHandlers := mouseButtonHandlers[button := widget];
    }

    /** `take_mouse_button_handler`: the button's handler, which is removed. */
    method TakeMouseButtonHandler(button: MouseButton) returns (handler: Option<WidgetId>)
      requires Valid()
      modifies this`mouseButtonHandlers
      ensures Valid() && mouseButtonHandlers == old(mouseButtonHandlers) - {button}
      ensures handler.Some? <==> button in old(mouseButtonHandlers)
      ensures handler.Some? ==> handler.value == old(mouseButtonHandlers)[button]
    {
      if button in mouseButtonHandlers {
        handler := Some(mouseButtonHandlers[button]);
      } else {
        handler := None;
      }
      mouseButtonHandlers := mouseButtonHandlers - {button};
    }

    /** `ui_state_for`: hovered when in the hover set, active and focused
        when it is that widget. */
    function UiStateFor(widget: WidgetId): (r: GooeyStyleSheet.State)
      reads this
      ensures r.hovered <==> widget in hover
      ensures r.active <==> active == Some(widget)
      ensures r.focused <==> focus == Some(widget)
    {
      GooeyStyleSheet.State(widget in hover, focus == Some(widget), active == Some(widget))
    }
  }

  /** A rendered window's tables after rendering a list of widgets
      (focusable ones with their tab indices) from a new frame: each id
      points at its last place in the render order. */
  method RenderAll(state: WindowState, widgets: seq<WidgetId>, focusable: seq<bool>)
    requires state.Valid() && |focusable| == |widgets|
    modifies state
    ensures state.Valid() && state.order == widgets
    ensures forall k :: k in state.ids <==> exists i :: 0 <= i < |widgets| && widgets[i].id == k
    ensures forall k :: k in state.tabOrders <==> exists i :: 0 <= i < |widgets| && widgets[i].id == k && focusable[i]
  {
    state.NewFrame();
    var i := 0;
    while i < |widgets|
      invariant 0 <= i <= |widgets|
      invariant state.Valid() && state.order == widgets[..i]
      invariant forall k :: k in state.ids <==> exists j :: 0 <= j < i && widgets[j].id == k
      invariant forall k :: k in state.tabOrders <==> exists j :: 0 <= j < i && widgets[j].id == k && focusable[j]
    {
      state.WidgetRendered(widgets[i], ContentArea(0, 0, 0, 0), focusable[i], None, None, None);
      assert widgets[..i + 1] == widgets[..i] + [widgets[i]];
      i := i + 1;
    }
    assert widgets[..i] == widgets;
  }

  /** `EventStatus`. */
  datatype EventStatus = Ignored | Processed

  /** `EventResult`: whether the event was processed and whether the window
      needs a redraw. */
  datatype EventResult = EventResult(status: EventStatus, needsRedraw: bool)

  /** `EventResult::ignored`. */
  function IgnoredResult(): EventResult
  {
    EventResult(Ignored, false)
  }

  /** `EventResult::processed`. */
  function ProcessedResult(): EventResult
  {
    EventResult(Processed, false)
  }

  /** `EventResult::redraw`. */
  function RedrawResult(): EventResult
  {
    EventResult(Processed, true)
  }

  /** `+` and `+=`: a redraw is needed when either side needs one, and the
      event is processed when either side processed it. */
  function Add(a: EventResult, b: EventResult): (r: EventResult)
    ensures r.needsRedraw <==> a.needsRedraw || b.needsRedraw
    ensures r.status == Processed <==> a.status == Processed || b.status == Processed
  {
    EventResult(if a.status == Processed || b.status == Processed then Processed else Ignored,
                a.needsRedraw || b.needsRedraw)
  }

  /** Ignored is an identity on both sides, and `+` is commutative,
      associative and idempotent. */
  lemma AddMonoid(a: EventResult, b: EventResult, c: EventResult)
    ensures Add(IgnoredResult(), a) == a && Add(a, IgnoredResult()) == a
    ensures Add(a, b) == Add(b, a)
    ensures Add(Add(a, b), c) == Add(a, Add(b, c))
    ensures Add(a, a) == a
    ensures Add(ProcessedResult(), RedrawResult()) == RedrawResult()
  {
  }

  /** `update_hover`: the widgets that stop being hovered are told so, the
      newly hovered ones likewise, and the new hover set is stored with a
      redraw; an unchanged set is just processed. */
  method UpdateHover(state: WindowState, newHover: set<WidgetId>)
    returns (result: EventResult, unhovered: set<WidgetId>, hovered: set<WidgetId>)
    requires state.Valid()
    modifies state`hover, state`redrawStatus
    ensures state.Valid() && state.hover == newHover
    ensures newHover != old(state.hover) ==> (
      && result == RedrawResult() && state.redrawStatus == Dirty
      && unhovered == old(state.hover) - newHover && hovered == newHover - old(state.hover))
    ensures newHover == old(state.hover) ==> (
      && result == ProcessedResult() && state.redrawStatus == old(state.redrawStatus)
      && unhovered == {} && hovered == {})
  {
    var lastHover := state.hover;
    if newHover != lastHover {
      unhovered := lastHover - newHover;
      hovered := newHover - lastHover;
      state.SetHover(newHover);
      result := RedrawResult();
    } else {
      unhovered, hovered := {}, {};
      result := ProcessedResult();
    }
  }

  /** The hover notifications rebuild the new hover set from the old one,
      and none is sent twice for one widget. */
  lemma HoverNotificationsRebuild(last: set<WidgetId>, next: set<WidgetId>)
    ensures (last - (last - next)) + (next - last) == next
    ensures (last - next) * (next - last) == {}
  {
  }
}
