/** The `Align` widget (src/widgets/align.rs), written against the earlier
    constraint of that file: a length is either known or sizes to fit and
    is clipped after a limit. Each axis is a `FrameInfo` of its two margins,
    each fixed or automatic; pixel arithmetic on `UPx` saturates. */
module CushyAlign {
  import opened Common
  import opened CushyConstraint

  /** The `ConstraintLimit` of this generation. */
  datatype Limit = Known(px: UPx) | ClippedAfter(px: UPx)

  /** `ConstraintLimit::max`. */
  function LimitMax(l: Limit): (r: UPx)
    ensures r == l.px
  {
    match l
    case Known(v) => v
    case ClippedAfter(v) => v
  }

  /** `ConstraintLimit - UPx`: the same kind of limit, saturating at zero. */
  function LimitSub(l: Limit, d: UPx): (r: Limit)
    ensures r.Known? == l.Known? && r.px == SatSub(l.px, d)
  {
    match l
    case Known(v) => Known(SatSub(v, d))
    case ClippedAfter(v) => ClippedAfter(SatSub(v, d))
  }

  /** `FlexibleDimension`, already converted to signed pixels at the
      current scale. */
  datatype FlexibleDimension = Auto | Dimension(px: int)

  /** `FrameInfo`: the two margins of one axis, `None` when automatic. */
  datatype FrameInfo = FrameInfo(a: Option<UPx>, b: Option<UPx>)

  function FrameSide(d: FlexibleDimension): (r: Option<UPx>)
    ensures r.None? <==> d.Auto?
    ensures d.Dimension? ==> r.value == IntoUnsigned(d.px)
  {
    match d
    case Auto => None
    case Dimension(px) => Some(IntoUnsigned(px))
  }

  /** `FrameInfo::new`: an automatic side is `None`, a dimension is its
      pixels, negative ones taken as zero. */
  function NewFrame(a: FlexibleDimension, b: FlexibleDimension): (f: FrameInfo)
    ensures f.a.None? <==> a.Auto?
    ensures f.b.None? <==> b.Auto?
    ensures a.Dimension? && a.px >= 0 ==> f.a == Some(a.px as int) || a.px > U32_MAX
    ensures b.Dimension? && b.px >= 0 ==> f.b == Some(b.px as int) || b.px > U32_MAX
  {
    FrameInfo(FrameSide(a), FrameSide(b))
  }

  /** `FrameInfo::child_constraint`: two fixed margins are taken off the
      limit and keep its kind; with any automatic margin the content is
      asked to size to fit within what the fixed margin leaves. */
  function ChildConstraint(f: FrameInfo, available: Limit): (r: Limit)
    ensures f.a.Some? && f.b.Some? ==> r == LimitSub(available, SatAdd(f.a.value, f.b.value))
    ensures f.a.Some? && f.b.None? ==> r == ClippedAfter(SatSub(available.px, f.a.value))
    ensures f.a.None? && f.b.Some? ==> r == ClippedAfter(SatSub(available.px, f.b.value))
    ensures f.a.None? && f.b.None? ==> r == ClippedAfter(available.px)
  {
    match (f.a, f.b)
    case (Some(a), Some(b)) => LimitSub(available, SatAdd(a, b))
    case (Some(one), None) => ClippedAfter(SatSub(LimitMax(available), one))
    case (None, Some(one)) => ClippedAfter(SatSub(LimitMax(available), one))
    case (None, None) => ClippedAfter(LimitMax(available))
  }

  /** `FrameInfo::measure`: the two margins and the content length along
      one axis. In a known length the automatic margins take what the
      content and the fixed margins leave (split in half, the extra pixel
      after, when both are automatic) and the content takes what the margins
      leave; when sizing to fit, automatic margins are zero and the content
      keeps its measurement. */
  function Measure(f: FrameInfo, available: Limit, content: UPx): (r: (UPx, UPx, UPx))
    ensures available.ClippedAfter? ==>
      r == (if f.a.Some? then f.a.value else 0, if f.b.Some? then f.b.value else 0, content)
    ensures available.Known? && f.a.Some? ==> r.0 == f.a.value
    ensures available.Known? && f.b.Some? ==> r.1 == f.b.value
    ensures available.Known? ==> r.2 == SatSub(SatSub(available.px, r.0), r.1)
  {
    match available
    case Known(size) =>
      var remaining := SatSub(size, content);
      var ab: (UPx, UPx) := match (f.a, f.b)
        case (Some(a), Some(b)) => (a, b)
        case (Some(a), None) => (a, SatSub(remaining, a))
        case (None, Some(b)) => (SatSub(remaining, b), b)
        case (None, None) => (remaining / 2, remaining - remaining / 2);
      (ab.0, ab.1, SatSub(SatSub(size, ab.0), ab.1))
    case ClippedAfter(_) =>
      (match f.a case Some(a) => a case None => 0, match f.b case Some(b) => b case None => 0, content)
  }

  /** In a known length, margins and content add up to exactly that length
      whenever the fixed margins fit: beside the content for one automatic
      side, within the length for two fixed ones. */
  lemma MeasureFillsKnown(f: FrameInfo, size: UPx, content: UPx)
    requires f.a.Some? && f.b.Some? ==> f.a.value + f.b.value <= size
    requires f.a.Some? && f.b.None? ==> f.a.value + content <= size
    requires f.a.None? && f.b.Some? ==> f.b.value + content <= size
    ensures var r := Measure(f, Known(size), content); r.0 + r.1 + r.2 == size
    ensures f.a.None? || f.b.None? ==> content <= size ==> Measure(f, Known(size), content).2 == content
  {
  }

  /** Two automatic margins centre the content: the trailing margin is the
      leading one or one pixel more. */
  lemma MeasureCentres(size: UPx, content: UPx)
    ensures var r := Measure(FrameInfo(None, None), Known(size), content);
      r.1 == r.0 || r.1 == r.0 + 1
    ensures content <= size ==> var r := Measure(FrameInfo(None, None), Known(size), content);
      r.0 + r.1 == size - content
  {
  }

  /** `Edges<UPx>`, the margins found for each side. */
  datatype Margin = Margin(left: UPx, top: UPx, right: UPx, bottom: UPx)

  /** `Layout`: the margins and the content's size. */
  datatype Layout = Layout(margin: Margin, content: Size<UPx>)

  /** `Edges::size` over `UPx`: the sums of opposite sides, saturating. */
  function MarginSize(m: Margin): (s: Size<UPx>)
    ensures m.left + m.right <= U32_MAX ==> s.width == m.left + m.right
    ensures m.top + m.bottom <= U32_MAX ==> s.height == m.top + m.bottom
  {
    Size(SatAdd(m.left, m.right), SatAdd(m.top, m.bottom))
  }

  /** `Layout::size` of `Align`: the margins plus the content. */
  function LayoutSize(l: Layout): (s: Size<UPx>)
    ensures s.width >= l.content.width && s.height >= l.content.height
    ensures s.width >= MarginSize(l.margin).width && s.height >= MarginSize(l.margin).height
  {
    Size(SatAdd(MarginSize(l.margin).width, l.content.width), SatAdd(MarginSize(l.margin).height, l.content.height))
  }

  /** The margins, fixed or automatic, of the four sides. */
  datatype FlexibleEdges = FlexibleEdges(left: FlexibleDimension, top: FlexibleDimension,
                                         right: FlexibleDimension, bottom: FlexibleDimension)

  /** `Align::measure`: the content is laid out in the constraint each
      axis's frame leaves it, then each axis is measured around it. */
  function AlignMeasure(edges: FlexibleEdges, available: Size<Limit>, child: Size<Limit> -> Size<UPx>): (l: Layout)
    ensures var horizontal := NewFrame(edges.left, edges.right);
      var vertical := NewFrame(edges.top, edges.bottom);
      var measured := child(Size(ChildConstraint(horizontal, available.width), ChildConstraint(vertical, available.height)));
      var h := Measure(horizontal, available.width, measured.width);
      var v := Measure(vertical, available.height, measured.height);
      l == Layout(Margin(h.0, v.0, h.1, v.1), Size(h.2, v.2))
  {
    var vertical := NewFrame(edges.top, edges.bottom);
    var horizontal := NewFrame(edges.left, edges.right);
    var contentAvailable := Size(ChildConstraint(horizontal, available.width), ChildConstraint(vertical, available.height));
    var contentSize := child(contentAvailable);
    var (left, right, width) := Measure(horizontal, available.width, contentSize.width);
    var (top, bottom, height) := Measure(vertical, available.height, contentSize.height);
    Layout(Margin(left, top, right, bottom), Size(width, height))
  }

  /** Centring content in a known space: an `Align` with automatic margins
      all round takes exactly the space it is given, and its content keeps
      its measurement where that fits. */
  lemma CenteredFillsKnownSpace(w: UPx, h: UPx, child: Size<Limit> -> Size<UPx>)
    ensures var l := AlignMeasure(FlexibleEdges(Auto, Auto, Auto, Auto), Size(Known(w), Known(h)), child);
      LayoutSize(l) == Size(w, h)
      && var measured := child(Size(ClippedAfter(w), ClippedAfter(h)));
      (measured.width <= w ==> l.content.width == measured.width)
      && (measured.height <= h ==> l.content.height == measured.height)
  {
    var l := AlignMeasure(FlexibleEdges(Auto, Auto, Auto, Auto), Size(Known(w), Known(h)), child);
    var measured := child(Size(ClippedAfter(w), ClippedAfter(h)));
    MeasureFillsKnown(FrameInfo(None, None), w, measured.width);
    MeasureFillsKnown(FrameInfo(None, None), h, measured.height);
  }

  /** When sizing to fit, `Align` is exactly its content plus its fixed
      margins. */
  lemma SizeToFitWrapsContent(edges: FlexibleEdges, w: UPx, h: UPx, child: Size<Limit> -> Size<UPx>)
    ensures var l := AlignMeasure(edges, Size(ClippedAfter(w), ClippedAfter(h)), child);
      l.margin.left == (if edges.left.Auto? then 0 else IntoUnsigned(edges.left.px))
      && l.margin.right == (if edges.right.Auto? then 0 else IntoUnsigned(edges.right.px))
      && l.content == child(Size(ChildConstraint(NewFrame(edges.left, edges.right), ClippedAfter(w)),
                                 ChildConstraint(NewFrame(edges.top, edges.bottom), ClippedAfter(h))))
  {
  }
}
