/** The `Grid` widget (src/widgets/grid.rs:20-131): a list of rows of
    `elements` widgets each, laid out by a `GridLayout` whose children are
    the column specifications. Before each layout the column specs are
    rebuilt when they changed, and the live rows are brought in line with
    the rows by the shared reconciliation loop. Widgets are their ids, and a
    mounted row equals the row it mounted; the generations of the two
    reactive values are fields (`None` for a constant). */
module CushyGrid {
  import opened Common
  import opened CushyGridUpdate
  import opened CushyGridLayout
  import opened CushyReconcile

  /** A row of widgets, by id. */
  type Row = seq<nat>

  /** The dimensions of a layout's children, in order. */
  function DimensionsOf(cs: seq<Child>): (r: seq<GridDimension>)
    ensures |r| == |cs| && forall i :: 0 <= i < |cs| ==> r[i] == cs[i].dimension
  {
    if cs == [] then [] else [cs[0].dimension] + DimensionsOf(cs[1..])
  }

  /** `synchronize_specs` rebuilds the specs when the layout does not hold
      one child per element, when the columns are a constant, or when they
      changed since the last rebuild. */
  predicate SpecsStale(childCount: nat, elements: nat, current: Option<nat>, synced: Option<nat>)
  {
    childCount != elements || current.None? || current != synced
  }

  /** `synchronize_children` reconciles constant rows when their number
      differs from the live rows', and changing rows when their generation
      differs from the last one synchronized. */
  predicate RowsStale(rowCount: nat, liveCount: nat, current: Option<nat>, synced: Option<nat>)
  {
    if current.None? then rowCount != liveCount else current != synced
  }

  /** A mounted row is the row it mounted. */
  function Mounted(r: Row): Row
  {
    r
  }

  /** The column specs after the first `n` turns of the row loop as
      written, which also swaps the layout's children at the two row
      positions it swaps (grid.rs:111-112); `None` when a row position is past
      the specs and `OrderedLots::swap` panics. */
  function SpecsAfterRowSwaps(dims: seq<GridDimension>, live: seq<Row>, rows: seq<Row>, n: nat): (r: Option<seq<GridDimension>>)
    requires n <= |rows|
    ensures r.Some? ==> |r.value| == |dims|
    decreases n
  {
    if n == 0 then Some(dims)
    else match SpecsAfterRowSwaps(dims, live, rows, n - 1)
      case None => None
      case Some(d) =>
        match ActionAt(Run(live, rows, n - 1).0, rows[n - 1], n - 1)
        case SwapWith(j) => if j < |d| then Some(d[n - 1 := d[j]][j := d[n - 1]]) else None
        case _ => Some(d)
  }

  /** As written, two rows trading places in a one-column grid make the
      layout swap a column that does not exist. */
  lemma RowSwapAsWrittenPanics()
    ensures SpecsAfterRowSwaps([FitContent], [[1], [2]], [[2], [1]], 1).None?
  {
    var live: seq<Row> := [[1], [2]];
    assert FindFrom(live, [2], 2).None?;
    assert FindFrom(live, [2], 1) == Some(1);
    assert ActionAt(Run(live, [[2], [1]], 0).0, [2], 0) == SwapWith(1);
  }

  /** As written, two rows trading places in a two-column grid swap the
      specs of the two columns, which the next synchronization keeps since
      the columns did not change. */
  lemma RowSwapAsWrittenSwapsColumns()
    ensures SpecsAfterRowSwaps([FitContent, Fractional(1)], [[1, 2], [3, 4]], [[3, 4], [1, 2]], 1)
            == Some([Fractional(1), FitContent])
  {
    var live: seq<Row> := [[1, 2], [3, 4]];
    var dims := [FitContent, Fractional(1)];
    assert SpecsAfterRowSwaps(dims, live, [[3, 4], [1, 2]], 0) == Some(dims);
    assert FindFrom(live, [3, 4], 2).None?;
    assert FindFrom(live, [3, 4], 1) == Some(1);
    assert ActionAt(Run(live, [[3, 4], [1, 2]], 0).0, [3, 4], 0) == SwapWith(1);
    assert dims[0 := dims[1]][1 := dims[0]] == [Fractional(1), FitContent];
  }

  /** A child appended after the specs so far makes them one longer. */
  lemma DimensionsAppended(cs: seq<Child>, index: nat, c: Child, dims: seq<GridDimension>)
    requires index < |dims| && DimensionsOf(cs) == dims[..index] && c.dimension == dims[index]
    ensures DimensionsOf(cs[..index] + [c] + cs[index..]) == dims[..index + 1]
  {
    var r := DimensionsOf(cs[..index] + [c] + cs[index..]);
    assert |r| == index + 1;
    forall k | 0 <= k < index + 1
      ensures r[k] == dims[..index + 1][k]
    {
      if k < index {
        assert r[k] == cs[k].dimension == DimensionsOf(cs)[k];
      }
    }
  }

  /** The rebuild of `synchronize_specs` (grid.rs:77-83): the layout is
      emptied, then given one child per spec, in order. */
  method Respec(layout: GridLayout, dims: seq<GridDimension>, scale: real)
    requires layout.Valid()
    modifies layout
    ensures layout.Valid() && DimensionsOf(layout.children) == dims
    ensures layout.elementsPerChild == old(layout.elementsPerChild) && layout.others == old(layout.others)
  {
    layout.Truncate(0);
    var index := 0;
    while index < |dims|
      invariant layout.Valid() && index <= |dims|
      invariant DimensionsOf(layout.children) == dims[..index]
      invariant layout.elementsPerChild == old(layout.elementsPerChild) && layout.others == old(layout.others)
      modifies layout
    {
      ghost var before := layout.children;
      layout.Insert(index, dims[index], scale);
      DimensionsAppended(before, index, layout.children[index], dims);
      index := index + 1;
    }
  }

  /** `Grid<ELEMENTS>`. */
  class Grid {
    const elements: nat
    const layout: GridLayout
    var columns: seq<GridDimension>
    var columnsGeneration: Option<nat>
    var rows: seq<Row>
    var rowsGeneration: Option<nat>
    var liveRows: seq<Row>
    var layoutGeneration: Option<nat>
    var specGeneration: Option<nat>

    /** The layout is valid and there is a spec per element. */
    ghost predicate Valid()
      reads this, layout
    {
      layout.Valid() && |columns| == elements
    }

    /** `Grid::new` (grid.rs:32-41): every column fits its content, and the
        columns are a constant. */
    constructor (orientation: Orientation, lpToUpx: LpToUpx, elements: nat, rows: seq<Row>, rowsGeneration: Option<nat>)
      ensures Valid() && fresh(layout) && this.elements == elements
      ensures columns == seq(elements, _ => FitContent) && columnsGeneration.None?
      ensures this.rows == rows && this.rowsGeneration == rowsGeneration && liveRows == []
      ensures layoutGeneration.None? && specGeneration.None?
      ensures layout.orientation == orientation && layout.Book().children == [] && layout.elementsPerChild == 1
    {
      this.elements := elements;
      layout := new GridLayout(orientation, lpToUpx);
      columns := seq(elements, _ => FitContent);
      columnsGeneration := None;
      this.rows := rows;
      this.rowsGeneration := rowsGeneration;
      liveRows := [];
      layoutGeneration := None;
      specGeneration := None;
    }

    /** `Grid::dimensions` (grid.rs:65-68): the column specs become a new
        value. */
    method SetDimensions(dimensions: seq<GridDimension>, generation: Option<nat>)
      requires Valid() && |dimensions| == elements
      modifies this
      ensures Valid() && columns == dimensions && columnsGeneration == generation
      ensures rows == old(rows) && rowsGeneration == old(rowsGeneration) && liveRows == old(liveRows)
      ensures layoutGeneration == old(layoutGeneration) && specGeneration == old(specGeneration)
    {
      columns := dimensions;
      columnsGeneration := generation;
    }

    /** `Grid::synchronize_specs` (grid.rs:70-85): when stale, the layout
        is emptied and given one child per column, in order, so its
        children's dimensions are the column specs; otherwise nothing
        changes. */
    method SynchronizeSpecs(scale: real)
      requires Valid()
      modifies this, layout
      ensures Valid() && columns == old(columns) && columnsGeneration == old(columnsGeneration)
      ensures rows == old(rows) && rowsGeneration == old(rowsGeneration)
      ensures liveRows == old(liveRows) && layoutGeneration == old(layoutGeneration)
      ensures layout.elementsPerChild == old(layout.elementsPerChild) && layout.others == old(layout.others)
      ensures old(SpecsStale(|layout.children|, elements, columnsGeneration, specGeneration))
              ==> DimensionsOf(layout.children) == columns && specGeneration == columnsGeneration
      ensures !old(SpecsStale(|layout.children|, elements, columnsGeneration, specGeneration))
              ==> layout.Book() == old(layout.Book()) && layout.layouts == old(layout.layouts) && specGeneration == old(specGeneration)
    {
      if SpecsStale(|layout.children|, elements, columnsGeneration, specGeneration) {
        specGeneration := columnsGeneration;
        Respec(layout, columns, scale);
      }
    }

    /** The row half of `Grid::synchronize_children` (grid.rs:87-131)
        with the row loop leaving the column specs alone: stale rows are
        reconciled, so the live rows become the rows, the layout holds one
        other length per row, and the rows left over are `removed`. */
    method SynchronizeRows() returns (removed: seq<Row>)
      requires Valid()
      modifies this, layout
      ensures Valid() && columns == old(columns) && rows == old(rows)
      ensures layout.Book() == old(layout.Book())
      ensures RowsStale(|old(rows)|, |old(liveRows)|, old(rowsGeneration), old(layoutGeneration))
              ==> liveRows == rows && removed == Reconciled(old(liveRows), rows).1
                  && layoutGeneration == rowsGeneration && layout.elementsPerChild == |rows|
      ensures !RowsStale(|old(rows)|, |old(liveRows)|, old(rowsGeneration), old(layoutGeneration))
              ==> liveRows == old(liveRows) && removed == [] && layoutGeneration == old(layoutGeneration)
    {
      removed := [];
      if RowsStale(|rows|, |liveRows|, rowsGeneration, layoutGeneration) {
        layoutGeneration := rowsGeneration;
        layout.SetElementCount(|rows|);
        var synced, mounted, inserted := Synchronize(liveRows, rows, liveRows, Mounted);
        liveRows := synced[..|rows|];
        removed := synced[|rows|..];
      }
    }

    /** `Grid::synchronize_children` as intended: the specs are
        synchronized, then the rows, and the column specs stay the columns
        whatever the rows did. */
    method SynchronizeChildren(scale: real) returns (removed: seq<Row>)
      requires Valid()
      modifies this, layout
      ensures Valid() && columns == old(columns) && rows == old(rows)
      ensures old(SpecsStale(|layout.children|, elements, columnsGeneration, specGeneration) || DimensionsOf(layout.children) == columns)
              ==> DimensionsOf(layout.children) == columns
      ensures RowsStale(|old(rows)|, |old(liveRows)|, old(rowsGeneration), old(layoutGeneration))
              ==> liveRows == rows && removed == Reconciled(old(liveRows), rows).1
                  && layoutGeneration == rowsGeneration && layout.elementsPerChild == |rows|
      ensures !RowsStale(|old(rows)|, |old(liveRows)|, old(rowsGeneration), old(layoutGeneration))
              ==> liveRows == old(liveRows) && removed == [] && layoutGeneration == old(layoutGeneration)
    {
      SynchronizeSpecs(scale);
      ghost var dims := DimensionsOf(layout.children);
      removed := SynchronizeRows();
      assert layout.children == layout.Book().children;
    }
  }
}
