/** The rasterizer of the older Gooey `Flex` widget
    (crates/gooey-widgets/src/flex/raster.rs): the children it keeps in step
    with a changing list of child entries, and the mouse events it routes to
    the child under the pointer. Children are their `LotId`s; the
    rasterizables, their drawing and the flex layout computation
    (`layout::Flex::update`) are not part of this model, so the placement of
    each child along the flex, and the flex's other length, are fields. */
module GooeyFlexRaster {
  import opened Common
  import opened CushyConstraint
  import opened CushyGridUpdate
  import opened CushyReconcile

  /** The one dimension this rasterizer gives its flex children. */
  datatype FlexDimension = FitContent

  /** A child's place along the flex: its offset and its length. */
  datatype Placement = Placement(offset: nat, size: nat)

  /** The rectangle a child occupies (raster.rs:177-182): at its offset
      along the flex, as long as its placement and as wide as the flex. */
  function ChildOrigin(o: Orientation, p: Placement): (r: Point<int>)
    ensures SplitSize(o, Size(r.x, r.y)) == (p.offset, 0)
  {
    MakePoint(o, p.offset as int, 0)
  }

  /** The extent of a child's rectangle. */
  function ChildExtent(o: Orientation, p: Placement, other: nat): (r: Size<int>)
    ensures SplitSize(o, r) == (p.size, other)
  {
    MakeSize(o, p.size as int, other as int)
  }

  /** A location relative to a child's rectangle. */
  function Relative(o: Orientation, p: Placement, location: Point<int>): (r: Point<int>)
    ensures r.x + ChildOrigin(o, p).x == location.x && r.y + ChildOrigin(o, p).y == location.y
  {
    Point(location.x - ChildOrigin(o, p).x, location.y - ChildOrigin(o, p).y)
  }

  /** Whether a child's half-open rectangle holds a location
      (raster.rs:184-188). */
  predicate Inside(o: Orientation, p: Placement, other: nat, location: Point<int>)
  {
    var rel := Relative(o, p, location);
    var extent := ChildExtent(o, p, other);
    0 <= rel.x < extent.width && 0 <= rel.y < extent.height
  }

  /** The rectangle holds exactly the locations from its origin up to, but
      not including, its origin plus its extent. */
  lemma InsideHalfOpen(o: Orientation, p: Placement, other: nat, location: Point<int>)
    ensures Inside(o, p, other, location) <==>
            var lo, ext := ChildOrigin(o, p), ChildExtent(o, p, other);
            lo.x <= location.x < lo.x + ext.width && lo.y <= location.y < lo.y + ext.height
  {
  }

  /** The first child (among those that have a placement) whose rectangle
      holds a location. */
  function FirstHit(o: Orientation, placements: seq<Placement>, other: nat, location: Point<int>, from: nat): (r: Option<nat>)
    requires from <= |placements|
    ensures r.Some? ==> from <= r.value < |placements| && Inside(o, placements[r.value], other, location)
                        && forall k :: from <= k < r.value ==> !Inside(o, placements[k], other, location)
    ensures r.None? ==> forall k :: from <= k < |placements| ==> !Inside(o, placements[k], other, location)
    decreases |placements| - from
  {
    if from == |placements| then None
    else if Inside(o, placements[from], other, location) then Some(from)
    else FirstHit(o, placements, other, location, from + 1)
  }

  /** What `cursor_moved` sends the first `n` children and the hovered
      set it leaves, from the hovered set `hovering` (raster.rs:197-219): a
      child under the pointer is sent the relative location and becomes
      hovered; a hovered child that is not under it is sent `None` and
      stops being hovered; the others are sent nothing. */
  function Cursor(o: Orientation, ids: seq<nat>, ps: seq<Placement>, other: nat, location: Option<Point<int>>,
                  hovering: set<nat>, n: nat): (r: (seq<(nat, Option<Point<int>>)>, set<nat>))
    requires |ids| == |ps| && n <= |ids|
    decreases n
  {
    if n == 0 then ([], hovering)
    else
      var (sent, hovered) := Cursor(o, ids, ps, other, location, hovering, n - 1);
      var id, p := ids[n - 1], ps[n - 1];
      if location.Some? && Inside(o, p, other, location.value) then (sent + [(id, Some(Relative(o, p, location.value)))], hovered + {id})
      else if id in hovered then (sent + [(id, None)], hovered - {id})
      else (sent, hovered)
  }

  /** Afterwards a child is hovered exactly when it is under the pointer,
      and an id that is not a child keeps its hovering. */
  lemma {:induction false} CursorHovered(o: Orientation, ids: seq<nat>, ps: seq<Placement>, other: nat,
                                         location: Option<Point<int>>, hovering: set<nat>, n: nat)
    requires |ids| == |ps| && n <= |ids| && Distinct(ids)
    ensures var h := Cursor(o, ids, ps, other, location, hovering, n).1;
            && (forall k :: 0 <= k < n ==> (ids[k] in h <==> location.Some? && Inside(o, ps[k], other, location.value)))
            && (forall x :: x !in ids[..n] ==> (x in h <==> x in hovering))
  {
    if n > 0 {
      CursorHovered(o, ids, ps, other, location, hovering, n - 1);
      assert ids[..n] == ids[..n - 1] + [ids[n - 1]];
    }
  }

  /** Every child sent something is one of the children, and a child sent
      `None` was hovered before and is not under the pointer. */
  lemma {:induction false} CursorSent(o: Orientation, ids: seq<nat>, ps: seq<Placement>, other: nat,
                                      location: Option<Point<int>>, hovering: set<nat>, n: nat)
    requires |ids| == |ps| && n <= |ids| && Distinct(ids)
    ensures var sent := Cursor(o, ids, ps, other, location, hovering, n).0;
            forall e :: e in sent ==> exists k :: 0 <= k < n && ids[k] == e.0
                                       && (e.1.None? <==> e.0 in hovering && !(location.Some? && Inside(o, ps[k], other, location.value)))
  {
    if n > 0 {
      CursorSent(o, ids, ps, other, location, hovering, n - 1);
      CursorHovered(o, ids, ps, other, location, hovering, n - 1);
      assert ids[n - 1] !in ids[..n - 1];
    }
  }

  /** The loop and the truncation of `synchronize_children`
      (raster.rs:36-61): the children go through the reconciliation loop,
      the flex dimensions take the same swaps and a fit-content dimension
      per new child, and both are cut to the entries. */
  method SyncFlex(children: seq<nat>, flex: seq<FlexDimension>, entries: seq<nat>)
    returns (children': seq<nat>, flex': seq<FlexDimension>)
    requires |flex| == |children|
    ensures children' == entries && flex' == seq(|entries|, _ => FlexDimension.FitContent)
  {
    var synced, along, inserted := Synchronize(children, entries, flex, (_: nat) => FlexDimension.FitContent);
    children' := synced[..|entries|];
    flex' := along[..|entries|];
    assert children' == Reconciled(children, entries).0;
    assert |flex'| == |entries| && forall k :: 0 <= k < |flex'| ==> flex'[k] == FlexDimension.FitContent;
  }

  /** The loop of `cursor_moved` (raster.rs:198-218) over the children
      and their placements, from the hovered set `hovering`. */
  method Hover(o: Orientation, ids: seq<nat>, ps: seq<Placement>, other: nat, location: Option<Point<int>>, hovering: set<nat>)
    returns (sent: seq<(nat, Option<Point<int>>)>, hovering': set<nat>)
    requires |ids| == |ps|
    ensures (sent, hovering') == Cursor(o, ids, ps, other, location, hovering, |ids|)
  {
    var i := 0;
    sent, hovering' := [], hovering;
    while i < |ids|
      invariant i <= |ids| && (sent, hovering') == Cursor(o, ids, ps, other, location, hovering, i)
    {
      var id, p := ids[i], ps[i];
      if location.Some? && Inside(o, p, other, location.value) {
        sent := sent + [(id, Some(Relative(o, p, location.value)))];
        hovering' := hovering' + {id};
      } else if id in hovering' {
        sent := sent + [(id, None)];
        hovering' := hovering' - {id};
      }
      i := i + 1;
    }
  }

  /** `FlexRasterizer`. */
  class FlexRasterizer {
    const orientation: Orientation
    /** Whether the children come from a changing value, and the generation
        last synchronized from it. */
    var dynamic: bool
    var sourceGeneration: Option<nat>
    var children: seq<nat>
    var flex: seq<FlexDimension>
    var placements: seq<Placement>
    var other: nat
    var mouseTracking: Option<nat>
    var hovering: set<nat>

    /** Every child has one flex dimension, and a child appears once. */
    ghost predicate Valid()
      reads this
    {
      |flex| == |children| && Distinct(children)
    }

    /** `FlexTransmogrifier::transmogrify` (raster.rs:70-121): one child and
        one fit-content dimension per entry, nothing tracked or hovered. */
    constructor (orientation: Orientation, entries: seq<nat>, dynamic: bool, generation: Option<nat>)
      requires Distinct(entries)
      ensures Valid() && this.orientation == orientation && children == entries
      ensures flex == seq(|entries|, _ => FlexDimension.FitContent) && this.dynamic == dynamic
      ensures sourceGeneration == (if dynamic then generation else None)
      ensures placements == [] && other == 0 && mouseTracking.None? && hovering == {}
    {
      this.orientation := orientation;
      this.dynamic := dynamic;
      sourceGeneration := if dynamic then generation else None;
      children := entries;
      flex := seq(|entries|, _ => FlexDimension.FitContent);
      placements := [];
      other := 0;
      mouseTracking := None;
      hovering := {};
    }

    /** `FlexRasterizer::synchronize_children` (raster.rs:31-63): for
        children from a changing value whose generation moved on, the
        children go through the reconciliation loop, the flex dimensions
        take the same swaps and a fit-content dimension per new child, and
        both are cut to the entries, so the children become the entries. */
    method SynchronizeChildren(entries: seq<nat>, generation: Option<nat>)
      requires Valid() && Distinct(entries)
      modifies this
      ensures Valid() && placements == old(placements) && other == old(other)
      ensures mouseTracking == old(mouseTracking) && hovering == old(hovering) && dynamic == old(dynamic)
      ensures old(dynamic && sourceGeneration != generation)
              ==> children == entries && sourceGeneration == generation && flex == seq(|entries|, _ => FlexDimension.FitContent)
      ensures !old(dynamic && sourceGeneration != generation)
              ==> children == old(children) && flex == old(flex) && sourceGeneration == old(sourceGeneration)
    {
      if dynamic && sourceGeneration != generation {
        sourceGeneration := generation;
        children, flex := SyncFlex(children, flex, entries);
      }
    }

    /** `mouse_down` (raster.rs:175-195): the first child whose rectangle
        holds the location is tracked and is sent the location relative to
        it; when none does, nothing changes. */
    method MouseDown(location: Point<int>) returns (sent: Option<(nat, Point<int>)>)
      requires Valid()
      modifies this
      ensures Valid() && children == old(children) && flex == old(flex) && hovering == old(hovering)
      ensures placements == old(placements) && other == old(other)
      ensures var n := Min(|placements|, |children|);
              var hit := FirstHit(orientation, placements[..n], other, location, 0);
              && (hit.None? ==> sent.None? && mouseTracking == old(mouseTracking))
              && (hit.Some? ==> sent == Some((children[hit.value], Relative(orientation, placements[hit.value], location)))
                                && mouseTracking == Some(children[hit.value]))
    {
      var n := Min(|placements|, |children|);
      var i := 0;
      sent := None;
      while i < n
        invariant i <= n && sent.None?
        invariant FirstHit(orientation, placements[..n], other, location, 0) == FirstHit(orientation, placements[..n], other, location, i)
      {
        if Inside(orientation, placements[i], other, location) {
          mouseTracking := Some(children[i]);
          sent := Some((children[i], Relative(orientation, placements[i], location)));
          return;
        }
        i := i + 1;
      }
    }

    /** `cursor_moved` (raster.rs:197-219): each child under the pointer is
        sent the relative location and becomes hovered; each hovered child
        no longer under it is sent `None` and stops being hovered. */
    method CursorMoved(location: Option<Point<int>>) returns (sent: seq<(nat, Option<Point<int>>)>)
      requires Valid() && |placements| == |children|
      modifies this
      ensures Valid() && children == old(children) && flex == old(flex) && mouseTracking == old(mouseTracking)
      ensures placements == old(placements) && other == old(other)
      ensures (sent, hovering) == Cursor(orientation, children, placements, other, location, old(hovering), |children|)
    {
      sent, hovering := Hover(orientation, children, placements, other, location, hovering);
    }

    /** `mouse_up` (raster.rs:221-248): the tracked child, if it is still a
        child with a placement, is sent the relative location when its
        rectangle holds it and `None` otherwise; tracking always ends. */
    method MouseUp(location: Option<Point<int>>) returns (sent: Option<(nat, Option<Point<int>>)>)
      requires Valid()
      modifies this
      ensures Valid() && children == old(children) && flex == old(flex) && hovering == old(hovering)
      ensures placements == old(placements) && other == old(other)
      ensures mouseTracking.None?
      ensures sent.Some? <==> old(mouseTracking).Some? && old(mouseTracking).value in children[..Min(|placements|, |children|)]
      ensures sent.Some? ==> sent.value.0 == old(mouseTracking).value
      ensures sent.Some? ==> var k := IndexOf(children, sent.value.0);
              sent.value.1 == if location.Some? && Inside(orientation, placements[k], other, location.value)
                              then Some(Relative(orientation, placements[k], location.value)) else None
    {
      var n := Min(|placements|, |children|);
      sent := None;
      if mouseTracking.Some? && mouseTracking.value in children[..n] {
        var id := mouseTracking.value;
        var k := IndexOf(children, id);
        var p := placements[k];
        sent := Some((id, if location.Some? && Inside(orientation, p, other, location.value)
                          then Some(Relative(orientation, p, location.value)) else None));
      }
      mouseTracking := None;
    }
  }

  /** The position of an id among the children. */
  function IndexOf(ids: seq<nat>, id: nat): (k: nat)
    requires id in ids
    ensures k < |ids| && ids[k] == id && id !in ids[..k]
  {
    if ids[0] == id then 0 else IndexOf(ids[1..], id) + 1
  }
}
