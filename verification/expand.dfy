/** The `Expand` widget (src/widgets/expand.rs): the weight it gives a
    stack or grid, and the size it takes from its parent. The child's layout
    is a parameter, the function from the constraint it is offered to the
    size it measures. */
module CushyExpand {
  import opened Common
  import opened CushyConstraint

  /** `ExpandKind`. */
  datatype ExpandKind = Weighted(weight: U8) | Horizontal | Vertical

  /** `Expand::new` and `Expand::empty` expand with a weight of one. */
  const DefaultKind: ExpandKind := Weighted(1)

  /** `Expand::weight`: a weighted expansion has its weight on both axes; a
      one-axis expansion has weight one on its own axis and none on the
      other. */
  function Weight(kind: ExpandKind, vertical: bool): (r: Option<U8>)
    ensures kind.Weighted? ==> r == Some(kind.weight)
    ensures kind.Horizontal? ==> (r.Some? <==> !vertical)
    ensures kind.Vertical? ==> (r.Some? <==> vertical)
    ensures r.Some? && !kind.Weighted? ==> r.value == 1
  {
    match kind
    case Weighted(w) => Some(w)
    case Horizontal => if vertical then None else Some(1)
    case Vertical => if vertical then Some(1) else None
  }

  /** Whether the expansion stretches along one axis. */
  predicate ExpandsAlong(kind: ExpandKind, vertical: bool)
  {
    Weight(kind, vertical).Some?
  }

  /** `Expand::layout_child`: the child fills the largest size available;
      an axis the widget expands along reports at least that size, the other
      axis reports the child's measurement limited to it. */
  function LayoutChild(kind: ExpandKind, available: Size<ConstraintLimit>, child: Size<ConstraintLimit> -> Size<UPx>): (r: Size<UPx>)
    ensures var filled := Size(Fill(MaxOf(available.width)), Fill(MaxOf(available.height)));
      var measured := child(filled);
      (ExpandsAlong(kind, false) ==> r.width == Max(MaxOf(available.width), measured.width))
      && (!ExpandsAlong(kind, false) ==> r.width == Min(measured.width, MaxOf(available.width)))
      && (ExpandsAlong(kind, true) ==> r.height == Max(MaxOf(available.height), measured.height))
      && (!ExpandsAlong(kind, true) ==> r.height == Min(measured.height, MaxOf(available.height)))
  {
    var filled := available.(width := Fill(MaxOf(available.width)), height := Fill(MaxOf(available.height)));
    var size := child(filled);
    match kind
    case Weighted(_) =>
      Size(FitMeasured(filled.width, size.width), FitMeasured(filled.height, size.height))
    case Horizontal =>
      Size(FitMeasured(filled.width, size.width), Min(size.height, MaxOf(filled.height)))
    case Vertical =>
      Size(Min(size.width, MaxOf(filled.width)), FitMeasured(filled.height, size.height))
  }

  /** Along an expanded axis the widget takes all the space its parent
      allows (and more only if the child insists); across it, never more
      than the space allowed. A weighted expansion does both on both axes. */
  lemma LayoutChildExpands(kind: ExpandKind, available: Size<ConstraintLimit>, child: Size<ConstraintLimit> -> Size<UPx>)
    ensures var r := LayoutChild(kind, available, child);
      (ExpandsAlong(kind, false) ==> r.width >= MaxOf(available.width))
      && (!ExpandsAlong(kind, false) ==> r.width <= MaxOf(available.width))
      && (ExpandsAlong(kind, true) ==> r.height >= MaxOf(available.height))
      && (!ExpandsAlong(kind, true) ==> r.height <= MaxOf(available.height))
    ensures kind.Weighted? ==> ExpandsAlong(kind, false) && ExpandsAlong(kind, true)
  {
  }
}
