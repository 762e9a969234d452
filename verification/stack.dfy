/** The `Stack` widget (src/widgets/stack.rs): its children laid out one
    after another by a `GridLayout` with one element per child. Each child
    is known by its id and by the wrapper that decides its dimension: an
    `Expand` gives it a weight, a `Resize` with a minimum along the stack a
    measured size, anything else fits its content; a wrapped child mounts
    its inner widget in the wrapper's place. The generation of the children
    value is a field (`None` for a constant). */
module CushyStack {
  import opened Common
  import opened CushyConstraint
  import opened CushyStyles
  import opened CushyExpand
  import opened CushyResize
  import opened CushyGridUpdate
  import opened CushyGridLayout
  import opened CushyReconcile

  /** A child widget: its id, and for a wrapper the id of the inner child. */
  datatype Widget =
    | Plain(id: nat)
    | Expanded(id: nat, kind: ExpandKind, inner: nat)
    | Resized(id: nat, resize: Resize, inner: nat)

  /** The range of a `Resize` along the stack. */
  function RangeAlong(r: Resize, o: Orientation): DimensionRange
  {
    if o == Row then r.height else r.width
  }

  /** What a new child brings to the stack (stack.rs:76-107): the widget
      that is mounted and the dimension the layout gives it. */
  function Mounting(w: Widget, o: Orientation): (r: (nat, GridDimension))
    ensures w.Expanded? && Weight(w.kind, o == Row).Some?
            ==> r == (w.inner, Fractional(Weight(w.kind, o == Row).value))
    ensures w.Resized? && Minimum(RangeAlong(w.resize, o)).Some?
            ==> r == (w.inner, Measured(Minimum(RangeAlong(w.resize, o)).value))
    ensures r.1.FitContent? <==> !(w.Expanded? && Weight(w.kind, o == Row).Some?)
                                 && !(w.Resized? && Minimum(RangeAlong(w.resize, o)).Some?)
    ensures r.1.FitContent? ==> r.0 == w.id
  {
    match w
    case Expanded(_, kind, inner) =>
      if Weight(kind, o == Row).Some? then (inner, Fractional(Weight(kind, o == Row).value)) else (w.id, FitContent)
    case Resized(_, resize, inner) =>
      if Minimum(RangeAlong(resize, o)).Some? then (inner, Measured(Minimum(RangeAlong(resize, o)).value)) else (w.id, FitContent)
    case Plain(id) => (id, FitContent)
  }

  /** The ids of the children. */
  function Ids(ws: seq<Widget>): (r: seq<nat>)
    ensures |r| == |ws| && forall k :: 0 <= k < |ws| ==> r[k] == ws[k].id
  {
    if ws == [] then [] else [ws[0].id] + Ids(ws[1..])
  }

  /** What stack.rs keeps as its synced children: the mounted widget of
      each child, which for a wrapper is its inner child. */
  function MountedIds(ws: seq<Widget>, o: Orientation): (r: seq<nat>)
    ensures |r| == |ws| && forall k :: 0 <= k < |ws| ==> r[k] == Mounting(ws[k], o).0
  {
    if ws == [] then [] else [Mounting(ws[0], o).0] + MountedIds(ws[1..], o)
  }

  /** As written, the loop compares the children with the mounted widgets
      (stack.rs:61-64), so once an `Expand` (id 5 around child 7) is
      synced, the next synchronization of the very same children does not
      recognise it: it inserts it again and removes what was mounted. */
  lemma ResyncAsWrittenRemounts()
    ensures var c := [Expanded(5, DefaultKind, 7)];
            Run(MountedIds(c, Row), Ids(c), 1).1 == [5]
            && Reconciled(MountedIds(c, Row), Ids(c)).1 == [7]
  {
    var c := [Expanded(5, DefaultKind, 7)];
    assert MountedIds(c, Row) == [7] && Ids(c) == [5];
    assert FindFrom([7], 5, 1).None?;
    assert ActionAt(Run([7], [5], 0).0, 5, 0) == Insert;
    RunUnfold([7], [5], 1, [7], [], 5, Insert);
  }

  /** Every layout child has the dimension of the synced child at its
      position. */
  predicate Paired(cs: seq<Child>, ws: seq<Widget>, o: Orientation)
  {
    |cs| == |ws| && forall k :: 0 <= k < |ws| ==> cs[k].dimension == Mounting(ws[k], o).1
  }

  /** The loop of `Stack::synchronize_children` (stack.rs:58-110) with the
      children compared with the synced children themselves: the synced
      list goes through the reconciliation loop, and the layout takes the
      same swaps and inserts each new child with its dimension, so every
      layout child keeps the dimension of the synced child at its
      position. */
  method SyncLayout(layout: GridLayout, live: seq<Widget>, target: seq<Widget>, o: Orientation, scale: real)
    returns (synced: seq<Widget>, inserted: seq<Widget>)
    requires layout.Valid() && Paired(layout.children, live, o)
    modifies layout
    ensures layout.Valid() && (synced, inserted) == Run(live, target, |target|)
    ensures Paired(layout.children, synced, o)
    ensures layout.elementsPerChild == old(layout.elementsPerChild) && layout.others == old(layout.others)
  {
    synced, inserted := live, [];
    var index := 0;
    while index < |target|
      invariant layout.Valid() && index <= |target|
      invariant (synced, inserted) == Run(live, target, index)
      invariant Paired(layout.children, synced, o)
      invariant layout.elementsPerChild == old(layout.elementsPerChild) && layout.others == old(layout.others)
      modifies layout
    {
      synced, inserted := SyncStep(layout, live, target, synced, inserted, index, o, scale);
      index := index + 1;
    }
  }

  /** One turn of the loop: the synced widgets and the insertions take the
      loop's next step, and the layout takes the same action, so it stays
      paired with the synced widgets. */
  method SyncStep(layout: GridLayout, live: seq<Widget>, target: seq<Widget>, synced: seq<Widget>, inserted: seq<Widget>,
                  index: nat, o: Orientation, scale: real)
    returns (synced': seq<Widget>, inserted': seq<Widget>)
    requires index < |target| && (synced, inserted) == Run(live, target, index)
    requires layout.Valid() && Paired(layout.children, synced, o)
    modifies layout
    ensures (synced', inserted') == Run(live, target, index + 1)
    ensures layout.Valid() && Paired(layout.children, synced', o)
    ensures layout.elementsPerChild == old(layout.elementsPerChild) && layout.others == old(layout.others)
  {
    var x := target[index];
    var a := ActionAt(synced, x, index);
    RunUnfold(live, target, index + 1, synced, inserted, x, a);
    synced', inserted' := Apply(synced, a, index, x), if a.Insert? then inserted + [x] else inserted;
    ghost var before := layout.Book();
    match a {
      case Keep =>
      case SwapWith(j) =>
        layout.Swap(index, j, scale);
        SwappedPaired(before, synced, index, j, o);
      case Insert =>
        layout.Insert(index, Mounting(x, o).1, scale);
        InsertedPaired(before, synced, index, x, o);
    }
  }

  /** Swapping two layout children beside their synced widgets keeps them
      paired. */
  lemma SwappedPaired(b: Bookkeeping, ws: seq<Widget>, i: nat, j: nat, o: Orientation)
    requires Paired(b.children, ws, o) && i < |ws| && j < |ws|
    ensures Paired(Swapped(b, i, j).children, ws[i := ws[j]][j := ws[i]], o)
  {
  }

  /** A child inserted beside its synced widget keeps every position
      paired with its dimension. */
  lemma InsertedPaired(b: Bookkeeping, ws: seq<Widget>, index: nat, x: Widget, o: Orientation)
    requires Paired(b.children, ws, o) && index <= |ws|
    ensures Paired(Inserted(b, index, Mounting(x, o).1).children, ws[..index] + [x] + ws[index..], o)
  {
    var cs, ws' := Inserted(b, index, Mounting(x, o).1).children, ws[..index] + [x] + ws[index..];
    forall k | 0 <= k < |ws'|
      ensures cs[k].dimension == Mounting(ws'[k], o).1
    {
      if k < index {
        assert cs[k] == b.children[k] && ws'[k] == ws[k];
      } else if k > index {
        assert cs[k] == b.children[k - 1] && ws'[k] == ws[k - 1];
      }
    }
  }

  /** Truncating the layout and the synced widgets together keeps them
      paired. */
  lemma TruncatedPaired(b: Bookkeeping, ws: seq<Widget>, n: nat, o: Orientation)
    requires Paired(b.children, ws, o) && n <= |ws|
    ensures Paired(Truncated(b, n).children, ws[..n], o)
  {
  }

  /** The synced widgets become `target`, with the layout following them:
      the ones left over are `removed` and the layout is cut to the new
      length (stack.rs:58-117). */
  method Resync(layout: GridLayout, live: seq<Widget>, target: seq<Widget>, o: Orientation, scale: real)
    returns (synced: seq<Widget>, removed: seq<Widget>, inserted: seq<Widget>)
    requires layout.Valid() && Paired(layout.children, live, o)
    modifies layout
    ensures layout.Valid() && Paired(layout.children, synced, o)
    ensures (synced, removed) == Reconciled(live, target) && inserted == Run(live, target, |target|).1
    ensures layout.elementsPerChild == old(layout.elementsPerChild) && layout.others == old(layout.others)
  {
    var all;
    all, inserted := SyncLayout(layout, live, target, o, scale);
    synced, removed := all[..|target|], all[|target|..];
    ghost var before := layout.Book();
    layout.Truncate(|target|);
    TruncatedPaired(before, all, |target|, o);
  }

  /** The widgets drawn and given a rectangle (stack.rs:124-130,
      152-167): those whose layout has a size. */
  function Shown(layouts: seq<StackLayout>, mounted: seq<nat>): (r: seq<nat>)
    requires |layouts| == |mounted|
    ensures forall k :: 0 <= k < |mounted| && layouts[k].size > 0 ==> mounted[k] in r
    ensures forall x :: x in r ==> exists k :: 0 <= k < |mounted| && layouts[k].size > 0 && mounted[k] == x
    ensures |r| <= |mounted|
  {
    if mounted == [] then []
    else
      var rest := Shown(layouts[1..], mounted[1..]);
      assert forall x :: x in rest ==> exists k :: 0 <= k < |mounted| && layouts[k].size > 0 && mounted[k] == x by {
        forall x | x in rest
          ensures exists k :: 0 <= k < |mounted| && layouts[k].size > 0 && mounted[k] == x
        {
          var k :| 0 <= k < |mounted| - 1 && layouts[1..][k].size > 0 && mounted[1..][k] == x;
          assert layouts[k + 1].size > 0 && mounted[k + 1] == x;
        }
      }
      assert forall k :: 1 <= k < |mounted| && layouts[k].size > 0 ==> mounted[k] in rest by {
        forall k | 1 <= k < |mounted| && layouts[k].size > 0
          ensures mounted[k] in rest
        {
          assert layouts[1..][k - 1] == layouts[k] && mounted[1..][k - 1] == mounted[k];
        }
      }
      if layouts[0].size > 0 then [mounted[0]] + rest else rest
  }

  /** The rectangle a shown child is given (stack.rs:155-164): at its
      offset along the stack, as long as its size, and as wide as the
      stack's other length. */
  function ChildRect(o: Orientation, l: StackLayout, other: UPx): (r: (Point<int>, Size<int>))
    ensures SplitSize(o, Size(r.0.x, r.0.y)) == (l.offset, 0)
    ensures SplitSize(o, r.1) == (l.size, other)
  {
    var p := MakePoint(o, l.offset as int, 0);
    var s := MakeSize(o, l.size as int, other as int);
    SplitMakeRoundTrip(o, s, l.size as int, other as int);
    SplitMakeRoundTrip(o, s, l.offset as int, 0);
    (p, s)
  }

  /** `Stack`. */
  class Stack {
    const orientation: Orientation
    const layout: GridLayout
    var children: seq<Widget>
    var childrenGeneration: Option<nat>
    var layoutGeneration: Option<nat>
    var synced: seq<Widget>

    /** The layout has one child per synced child, with its dimension. */
    ghost predicate Valid()
      reads this, layout
    {
      layout.Valid() && layout.orientation == orientation && Paired(layout.children, synced, orientation)
    }

    /** `Stack::new` (stack.rs:28-37). */
    constructor (orientation: Orientation, lpToUpx: LpToUpx, children: seq<Widget>, generation: Option<nat>)
      ensures Valid() && fresh(layout) && this.orientation == orientation
      ensures this.children == children && childrenGeneration == generation
      ensures layoutGeneration.None? && synced == []
    {
      this.orientation := orientation;
      layout := new GridLayout(orientation, lpToUpx);
      this.children := children;
      childrenGeneration := generation;
      layoutGeneration := None;
      synced := [];
    }

    /** `Stack::synchronize_children` (stack.rs:49-119), comparing the
        children with the synced children: when stale (a constant whose
        length differs from the layout's, or a new generation), the synced
        children become the children, with the ones left over `removed`
        and the new ones `inserted`, and the layout follows them. */
    method SynchronizeChildren(scale: real) returns (removed: seq<Widget>, inserted: seq<Widget>)
      requires Valid()
      modifies this, layout
      ensures Valid() && children == old(children) && childrenGeneration == old(childrenGeneration)
      ensures layout.elementsPerChild == old(layout.elementsPerChild) && layout.others == old(layout.others)
      ensures old(ChildrenStale(|children|, |layout.children|, childrenGeneration, layoutGeneration))
              ==> synced == children && layoutGeneration == childrenGeneration
                  && removed == Reconciled(old(synced), children).1
                  && inserted == Run(old(synced), children, |children|).1
      ensures !old(ChildrenStale(|children|, |layout.children|, childrenGeneration, layoutGeneration))
              ==> synced == old(synced) && layoutGeneration == old(layoutGeneration) && removed == [] && inserted == []
    {
      removed, inserted := [], [];
      if ChildrenStale(|children|, |layout.children|, childrenGeneration, layoutGeneration) {
        layoutGeneration := childrenGeneration;
        removed, inserted := Follow(scale);
      }
    }

    /** The synced children and the layout follow the children
        (stack.rs:56-118). */
    method Follow(scale: real) returns (removed: seq<Widget>, inserted: seq<Widget>)
      requires Valid()
      modifies this, layout
      ensures Valid() && synced == children
      ensures removed == Reconciled(old(synced), children).1 && inserted == Run(old(synced), children, |children|).1
      ensures children == old(children) && childrenGeneration == old(childrenGeneration) && layoutGeneration == old(layoutGeneration)
      ensures layout.elementsPerChild == old(layout.elementsPerChild) && layout.others == old(layout.others)
    {
      synced, removed, inserted := Resync(layout, synced, children, orientation, scale);
    }
  }

  /** Whether `synchronize_children` must run: for a constant, when the
      number of children differs from the layout's; otherwise when the
      generation changed. */
  predicate ChildrenStale(count: nat, layoutCount: nat, current: Option<nat>, synced: Option<nat>)
  {
    if current.None? then count != layoutCount else current != synced
  }

  /** With the children compared with themselves, synchronizing children
      that did not change inserts and removes nothing. */
  lemma ResyncKeepsAll(children: seq<Widget>)
    ensures Run(children, children, |children|).1 == [] && Reconciled(children, children).1 == []
  {
    ReconciledOnItself(children);
  }
}
