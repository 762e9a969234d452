/** The sizing logic of the `Resize` widget (src/widgets/resize.rs): the
    constraint it passes to its child and the size it reports. The child's
    layout is a parameter, the function from the constraint it is offered to
    the size it measures; conversion of dimensions to pixels at the current
    scale is the parameter `toUpx`. */
module CushyResize {
  import opened Common
  import opened CushyConstraint
  import opened CushyStyles

  /** `Resize`'s two ranges. */
  datatype Resize = Resize(width: DimensionRange, height: DimensionRange)

  /** `override_constraint`: a fill is clamped to the range; a size-to-fit
      becomes a fill when the range is a single size, and otherwise stays a
      size-to-fit of the range's minimum (or of the clamped limit when the
      range has no minimum). */
  function OverrideConstraint(c: ConstraintLimit, range: DimensionRange, toUpx: Dimension -> UPx): (r: ConstraintLimit)
    ensures c.Fill? ==> r == Fill(Clamp(range, c.px, toUpx))
    ensures c.SizeToFit? && Minimum(range).Some? && Maximum(range).Some? && Minimum(range) == Maximum(range)
      ==> r == Fill(toUpx(Minimum(range).value))
    ensures c.SizeToFit? && !(Minimum(range).Some? && Maximum(range).Some? && Minimum(range) == Maximum(range))
      ==> r.SizeToFit? && r.px == (if Minimum(range).Some? then toUpx(Minimum(range).value) else Clamp(range, c.px, toUpx))
  {
    match c
    case Fill(size) => Fill(Clamp(range, size, toUpx))
    case SizeToFit(clippedAfter) =>
      if Minimum(range).Some? && Maximum(range).Some? && Minimum(range).value == Maximum(range).value then
        Fill(toUpx(Minimum(range).value))
      else
        SizeToFit(if Minimum(range).Some? then toUpx(Minimum(range).value) else Clamp(range, clippedAfter, toUpx))
  }

  /** An unbounded range leaves any constraint as it is. */
  lemma UnboundedOverridesNothing(c: ConstraintLimit, toUpx: Dimension -> UPx)
    ensures OverrideConstraint(c, FromRangeFull(), toUpx) == c
  {
  }

  /** A fill constraint stays within a range whose ends convert in order. */
  lemma OverriddenFillWithinRange(c: ConstraintLimit, range: DimensionRange, toUpx: Dimension -> UPx)
    requires c.Fill?
    requires Minimum(range).Some? && Maximum(range).Some?
    requires toUpx(Minimum(range).value) <= toUpx(Maximum(range).value)
    ensures toUpx(Minimum(range).value) <= OverrideConstraint(c, range, toUpx).px <= toUpx(Maximum(range).value)
  {
  }

  /** The constraint offered to the child, and whether a second, filling
      layout pass follows, before the size is clamped: an exact size on both
      axes is used as is (and is filled); otherwise each axis's constraint is
      overridden, and a second pass follows when either became a
      size-to-fit. */
  function FirstPass(r: Resize, available: Size<ConstraintLimit>, child: Size<ConstraintLimit> -> Size<UPx>,
                     toUpx: Dimension -> UPx): (res: (Size<UPx>, bool))
    ensures ExactDimension(r.width).Some? && ExactDimension(r.height).Some? ==>
      res == (Size(toUpx(ExactDimension(r.width).value), toUpx(ExactDimension(r.height).value)), true)
  {
    var w, h := ExactDimension(r.width), ExactDimension(r.height);
    if w.Some? && h.Some? then
      (Size(toUpx(w.value), toUpx(h.value)), true)
    else
      var offered := Size(OverrideConstraint(available.width, r.width, toUpx),
                          OverrideConstraint(available.height, r.height, toUpx));
      (child(offered), offered.width.SizeToFit? || offered.height.SizeToFit?)
  }

  /** `Resize::layout_child`, up to the size handed to
      `WrappedLayout::aligned`: the first pass's size clamped to the ranges
      on each axis; after a second, filling pass, the smaller of that and
      what the child measured when filling it. */
  function LayoutChildSize(r: Resize, available: Size<ConstraintLimit>, child: Size<ConstraintLimit> -> Size<UPx>,
                           toUpx: Dimension -> UPx): (s: Size<UPx>)
    ensures var first := FirstPass(r, available, child, toUpx);
      var clamped := Size(Clamp(r.width, first.0.width, toUpx), Clamp(r.height, first.0.height, toUpx));
      s.width <= clamped.width && s.height <= clamped.height
      && (!first.1 ==> s == clamped)
  {
    var first := FirstPass(r, available, child, toUpx);
    var clamped := Size(Clamp(r.width, first.0.width, toUpx), Clamp(r.height, first.0.height, toUpx));
    if first.1 then
      var filled := child(Size(Fill(clamped.width), Fill(clamped.height)));
      Size(Min(filled.width, clamped.width), Min(filled.height, clamped.height))
    else clamped
  }

  /** The reported size never exceeds a bounded range's maximum, on either
      axis. */
  lemma LayoutChildWithinMaximum(r: Resize, available: Size<ConstraintLimit>, child: Size<ConstraintLimit> -> Size<UPx>,
                                 toUpx: Dimension -> UPx)
    ensures Maximum(r.width).Some? ==> LayoutChildSize(r, available, child, toUpx).width <= toUpx(Maximum(r.width).value)
    ensures Maximum(r.height).Some? ==> LayoutChildSize(r, available, child, toUpx).height <= toUpx(Maximum(r.height).value)
  {
    var first := FirstPass(r, available, child, toUpx);
    var s := LayoutChildSize(r, available, child, toUpx);
    assert s.width <= Clamp(r.width, first.0.width, toUpx);
    assert s.height <= Clamp(r.height, first.0.height, toUpx);
  }

  /** With an exact size on both axes, as the corrected `exact_dimension`
      recognises for `Resize::to(size)`, the child is only ever offered that
      size as a fill. */
  lemma ExactSizeIsFilled(w: Dimension, h: Dimension, available: Size<ConstraintLimit>,
                          child: Size<ConstraintLimit> -> Size<UPx>, toUpx: Dimension -> UPx)
    ensures var r := Resize(FromDimension(w), FromDimension(h));
      var s := LayoutChildSize(r, available, child, toUpx);
      var filled := child(Size(Fill(toUpx(w)), Fill(toUpx(h))));
      s == Size(Min(filled.width, toUpx(w)), Min(filled.height, toUpx(h)))
  {
    var r := Resize(FromDimension(w), FromDimension(h));
    assert ExactDimension(r.width) == Some(w) && ExactDimension(r.height) == Some(h);
  }
}
