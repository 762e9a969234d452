/** The older `Spacing` widget (src/widgets/spacing.rs). Its `FrameInfo`
    is the same as `Align`'s, so its margins and content are measured with
    `CushyAlign.AlignMeasure`; what differs is the size it reports. */
module CushySpacing {
  import opened Common
  import opened CushyConstraint
  import opened CushyAlign

  /** `Layout::size` of `Spacing` as written: the margins alone, without
      the content. */
  function SpacingSizeAsWritten(l: Layout): (s: Size<UPx>)
    ensures s == MarginSize(l.margin)
    ensures l.margin == Margin(0, 0, 0, 0) ==> s == Size(0, 0)
  {
    MarginSize(l.margin)
  }

  /** As written, a `Spacing` with zero margins around a 100 by 50 child
      measures itself as 0 by 0: the content is laid out at its full size
      but not counted in the widget's own size. */
  lemma SpacingAsWrittenDropsContent()
    ensures var zero := Dimension(0);
      var l := AlignMeasure(FlexibleEdges(zero, zero, zero, zero), Size(ClippedAfter(1000), ClippedAfter(1000)),
                            _ => Size(100, 50));
      l.content == Size(100, 50) && SpacingSizeAsWritten(l) == Size(0, 0)
  {
    var zero := Dimension(0);
    var l := AlignMeasure(FlexibleEdges(zero, zero, zero, zero), Size(ClippedAfter(1000), ClippedAfter(1000)),
                          _ => Size(100, 50));
    assert NewFrame(zero, zero) == FrameInfo(Some(0), Some(0));
  }

  /** The corrected size, as `Align` reports it, covers the content: when
      sizing to fit, it is the content plus the fixed margins, and in a
      known space with automatic margins it is that space. */
  lemma MeasuredSizeCoversContent(edges: FlexibleEdges, available: Size<Limit>, child: Size<Limit> -> Size<UPx>)
    ensures var l := AlignMeasure(edges, available, child);
      LayoutSize(l).width >= l.content.width && LayoutSize(l).height >= l.content.height
    ensures var l := AlignMeasure(edges, available, child);
      available.width.ClippedAfter? && l.margin.left + l.margin.right + l.content.width <= U32_MAX
      ==> LayoutSize(l).width == l.margin.left + l.margin.right + l.content.width
    ensures var l := AlignMeasure(edges, available, child);
      available.width.Known? && edges.left.Auto? && edges.right.Auto? ==> LayoutSize(l).width == available.width.px
  {
    var l := AlignMeasure(edges, available, child);
    var horizontal := NewFrame(edges.left, edges.right);
    var vertical := NewFrame(edges.top, edges.bottom);
    var measured := child(Size(ChildConstraint(horizontal, available.width), ChildConstraint(vertical, available.height)));
    if available.width.Known? && edges.left.Auto? && edges.right.Auto? {
      MeasureFillsKnown(horizontal, available.width.px, measured.width);
    }
  }
}
