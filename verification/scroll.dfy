/** The integer parts of the scroll view (src/widgets/scroll.rs): how the
    contents are constrained and placed, how a scroll position is kept within
    its maximum, and the lazily made scroll bar widgets. The scroll bar's
    proportions and the pixel amounts of a wheel or a drag are floating point
    and enter as parameters. */
module CushyScroll {
  import opened Common
  import opened CushyConstraint

  /** `constrain_child`: a fill limits the measurement to the size being
      filled; a size-to-fit keeps the measurement. */
  function ConstrainChild(c: ConstraintLimit, measured: UPx): (r: UPx)
    ensures r <= measured
    ensures c.Fill? ==> r <= c.px && (r == measured || r == c.px)
    ensures c.SizeToFit? ==> r == measured
  {
    match c
    case Fill(size) => Min(size, measured)
    case SizeToFit(_) => measured
  }

  /** A constrained child never exceeds what the limit allows, and is the
      largest measurement-bounded value that does. */
  lemma ConstrainChildIsLargestFit(c: ConstraintLimit, measured: UPx, x: UPx)
    ensures c.Fill? ==> ConstrainChild(c, measured) <= MaxOf(c)
    ensures x <= measured && (c.Fill? ==> x <= c.px) ==> x <= ConstrainChild(c, measured)
  {
  }

  /** `ScrollBar::constrained_scroll`: the scroll position, at most the
      maximum scroll. */
  function ConstrainedScroll(scroll: UPx, maxScroll: UPx): (r: UPx)
    ensures r <= maxScroll && r <= scroll
    ensures r == scroll || r == maxScroll
  {
    Min(scroll, maxScroll)
  }

  /** Constraining twice is constraining once; a position within the
      maximum is left alone. */
  lemma ConstrainedScrollIdempotent(scroll: UPx, maxScroll: UPx)
    ensures ConstrainedScroll(ConstrainedScroll(scroll, maxScroll), maxScroll) == ConstrainedScroll(scroll, maxScroll)
    ensures scroll <= maxScroll <==> ConstrainedScroll(scroll, maxScroll) == scroll
  {
  }

  /** `ScrollBar::mouse_wheel`, given the wheel's movement along the bar in
      whole pixels: the new position is the old one moved back by the amount,
      not below zero and not past the maximum; the event is handled exactly
      when the position changes. */
  function WheelScroll(scroll: UPx, amount: int, maxScroll: UPx): (r: (UPx, bool))
    ensures r.0 <= maxScroll
    ensures r.1 <==> r.0 != scroll
    ensures 0 <= scroll - amount <= maxScroll ==> r.0 == scroll - amount
  {
    var next := ConstrainedScroll(IntoUnsigned(scroll - amount), maxScroll);
    (next, next != scroll)
  }

  /** A wheel movement of nothing changes nothing unless the position was
      already beyond the maximum. */
  lemma WheelOfNothingIgnored(scroll: UPx, maxScroll: UPx)
    ensures !WheelScroll(scroll, 0, maxScroll).1 <==> scroll <= maxScroll
  {
  }

  /** `DragInfo`'s fields that `update_bar` reads. */
  datatype DragInfo = DragInfo(start: int, startScroll: UPx, inBar: bool)

  /** `DragInfo::update_bar`. Dragging the bar itself moves the position by
      `moved`, the drag distance scaled to the hidden contents, limited to
      the maximum, but a drag of no distance returns the starting position
      as it is. Pressing outside the bar jumps to `jumped`, the position
      proportional to the press. */
  function UpdateBar(d: DragInfo, location: int, maxScroll: UPx, moved: int, jumped: UPx): (r: UPx)
    ensures d.inBar && location == d.start ==> r == d.startScroll
    ensures d.inBar && location != d.start ==> r <= maxScroll
    ensures !d.inBar ==> r == jumped
  {
    if d.inBar then
      if location - d.start == 0 then d.startScroll
      else Min(IntoUnsigned(d.startScroll + moved), maxScroll)
    else jumped
  }

  /** A bar that has not moved keeps its position even past a maximum that
      shrank during the drag; any real movement brings it back within. */
  lemma UnmovedDragKeepsStart(d: DragInfo, maxScroll: UPx, moved: int, jumped: UPx)
    requires d.inBar && d.startScroll > maxScroll
    ensures UpdateBar(d, d.start, maxScroll, moved, jumped) > maxScroll
    ensures UpdateBar(d, d.start + 1, maxScroll, moved, jumped) <= maxScroll
  {
  }

  /** The region given to the contents in `Scroll::layout`: placed at minus
      the scroll offset, with the contents' size cut so that its far edge
      stays within `UPx::MAX`. */
  function ContentRegion(scroll: Size<UPx>, content: Size<UPx>): (r: (Size<int>, Size<UPx>))
    ensures r.0 == Size(-(scroll.width as int), -(scroll.height as int))
    ensures r.1.width <= content.width && r.1.height <= content.height
    ensures scroll.width + r.1.width <= U32_MAX && scroll.height + r.1.height <= U32_MAX
    ensures scroll.width + content.width <= U32_MAX ==> r.1.width == content.width
    ensures scroll.height + content.height <= U32_MAX ==> r.1.height == content.height
  {
    (Size(-(scroll.width as int), -(scroll.height as int)),
     Size(Min(content.width, U32_MAX - scroll.width), Min(content.height, U32_MAX - scroll.height)))
  }

  /** `OwnedWidgetState`: the widget before it is made, while it is being
      made, and the mounted reference afterwards. */
  datatype OwnedWidgetState<W> = Unmade(widget: W) | Making | Made(made: W)

  /** The state after `make_if_needed`: an unmade widget is made, a made one
      is kept. */
  function Make<W>(s: OwnedWidgetState<W>): (r: OwnedWidgetState<W>)
    requires !s.Making?
    ensures r.Made?
    ensures s.Unmade? ==> r.made == s.widget
    ensures s.Made? ==> r == s
  {
    match s
    case Unmade(w) => Made(w)
    case Made(_) => s
  }

  /** Making is done once: a second call leaves the state alone. */
  lemma MakeIdempotent<W>(s: OwnedWidgetState<W>)
    requires !s.Making?
    ensures Make(Make(s)) == Make(s)
  {
  }

  /** `OwnedWidget`: a widget made on first use. */
  class OwnedWidget<W> {
    var state: OwnedWidgetState<W>

    /** The `Making` state only exists inside `make_if_needed`. */
    predicate Valid()
      reads this
    {
      !state.Making?
    }

    /** `OwnedWidget::new`. */
    constructor(widget: W)
      ensures Valid() && state == Unmade(widget)
    {
      state := Unmade(widget);
    }

    /** `OwnedWidget::make_if_needed`: makes the widget if it is not made
      yet and returns the made widget. */
    method MakeIfNeeded() returns (made: W)
      requires Valid()
      modifies this
      ensures Valid() && state == Make(old(state))
      ensures made == state.made
    {
      if state.Unmade? {
        var widget := state.widget;
        state := Making;
        state := Made(widget);
      }
      made := state.made;
    }
  }
}
