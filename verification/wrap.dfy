/** The `Wrap` widget (src/widgets/wrap.rs): children laid out left to
    right like words in a paragraph, starting a new row when the next child
    would not fit. Each child's size is what it measures when asked to size
    to fit the available space, given as `sizes`; the spacing is already in
    pixels. Positions grow without bound (no `u32` wrap-around); the
    explicitly saturating additions of the source saturate. */
module CushyWrap {
  import opened Common
  import opened CushyConstraint
  import opened CushyStyles

  /** `WrapAlign`. */
  datatype WrapAlign = Start | End | Center | SpaceBetween | SpaceEvenly | SpaceAround

  /** `VerticalAlign`. */
  datatype VerticalAlign = Top | Center | Bottom

  /** `Wrap::horizontal_alignment`: the offset of a row's first child and
      the extra space after each further child, out of the `remaining`
      width of a row of `n` children. */
  function HorizontalAlignment(align: WrapAlign, order: HorizontalOrder, remaining: UPx, n: nat): (r: (nat, nat))
    requires n > 0
    ensures (align.Start? && order.LeftToRight?) || (align.End? && order.RightToLeft?) ==> r == (0, 0)
    ensures (align.End? && order.LeftToRight?) || (align.Start? && order.RightToLeft?) ==> r == (remaining, 0)
    ensures align == WrapAlign.Center ==> r == (remaining / 2, 0)
    ensures align.SpaceBetween? ==> r == (0, if n > 1 then remaining / (n - 1) else 0)
    ensures align.SpaceEvenly? ==> r == ((remaining / n) / 2, remaining / n)
    ensures align.SpaceAround? ==> r == (remaining / (n + 1), remaining / (n + 1))
  {
    match align
    case Start => if order.LeftToRight? then (0, 0) else (remaining, 0)
    case End => if order.LeftToRight? then (remaining, 0) else (0, 0)
    case Center => (remaining / 2, 0)
    case SpaceBetween => if n > 1 then (0, remaining / (n - 1)) else (0, 0)
    case SpaceEvenly => var s := remaining / n; (s / 2, s)
    case SpaceAround => var s := remaining / (n + 1); (s, s)
  }

  /** Aligning never pushes a row past the width it had left: the leading
      offset plus the extra space between the children is at most the
      remaining width. Start and end swap when the order is reversed. */
  lemma AlignmentFitsRow(align: WrapAlign, order: HorizontalOrder, remaining: UPx, n: nat)
    requires n > 0
    ensures var r := HorizontalAlignment(align, order, remaining, n); r.0 + r.1 * (n - 1) <= remaining
    ensures HorizontalAlignment(Start, order, remaining, n) == HorizontalAlignment(End, RevHorizontal(order), remaining, n)
  {
    var r := HorizontalAlignment(align, order, remaining, n);
    match align
    case SpaceBetween =>
      if n > 1 {
        DivTimes(remaining, n - 1);
        SharesFit(remaining / (n - 1), n - 1, remaining, 0, r);
      }
    case SpaceEvenly =>
      DivTimes(remaining, n);
      MulSucc(remaining / n, n - 1);
      SharesFit(remaining / n, n - 1, remaining, (remaining / n) / 2, r);
    case SpaceAround =>
      DivTimes(remaining, n + 1);
      MulSucc(remaining / (n + 1), n);
      MulSucc(remaining / (n + 1), n - 1);
      SharesFit(remaining / (n + 1), n - 1, remaining, remaining / (n + 1), r);
    case _ =>
  }

  /** The alignment `r`, a lead and shares of `s`, keeps the bound on
      the lead and `k` shares. */
  lemma SharesFit(s: nat, k: nat, total: nat, lead: nat, r: (nat, nat))
    requires lead + s * k <= total && r == (lead, s)
    ensures r.0 + r.1 * k <= total
  {
  }

  /** The offset of a child `h` tall within a row `rowHeight` tall. */
  function VerticalOffset(v: VerticalAlign, rowHeight: nat, h: nat): (off: nat)
    ensures h <= rowHeight ==> off + h <= rowHeight
    ensures v.Top? ==> off == 0
    ensures v.Bottom? && h <= rowHeight ==> off + h == rowHeight
    ensures v == VerticalAlign.Center && h <= rowHeight ==> off == (rowHeight - h) / 2
  {
    match v
    case Top => 0
    case Center => SatSub(rowHeight, h) / 2
    case Bottom => SatSub(rowHeight, h)
  }

  /** The `x` of each child that fits on a row starting at child `k` with
      the row's cursor at `x`, and the cursor after the last of them. A
      child goes on the row when it is the row's first (the cursor is still
      zero) or when its end, after the spacing, is within `width`. */
  function FillRow(sizes: seq<Size<UPx>>, k: nat, x: UPx, width: UPx, spacing: UPx): (r: (seq<UPx>, UPx))
    requires k <= |sizes|
    ensures k + |r.0| <= |sizes|
    ensures x == 0 && k < |sizes| ==> |r.0| > 0
    decreases |sizes| - k
  {
    if k == |sizes| then ([], x)
    else
      var childX := if x == 0 then 0 else SatAdd(x, spacing);
      var after := SatAdd(childX, sizes[k].width);
      if x > 0 && after > width then ([], x)
      else
        var rest := FillRow(sizes, k + 1, after, width, spacing);
        ([childX] + rest.0, rest.1)
  }

  /** The breaking rule: every child on a row after the first ends within
      the width (a child placed at zero only follows children of no width),
      and when a row stops before the last child, that next child would
      have ended past the width. */
  lemma FillRowBreaksOnOverflow(sizes: seq<Size<UPx>>, k: nat, x: UPx, width: UPx, spacing: UPx)
    requires k <= |sizes|
    ensures var r := FillRow(sizes, k, x, width, spacing);
      forall j :: 0 <= j < |r.0| && r.0[j] > 0 ==> SatAdd(r.0[j], sizes[k + j].width) <= width
    ensures var r := FillRow(sizes, k, x, width, spacing);
      k + |r.0| < |sizes| ==> r.1 > 0 && SatAdd(SatAdd(r.1, spacing), sizes[k + |r.0|].width) > width
  {
    FillRowFits(sizes, k, x, width, spacing);
    FillRowStopsOnOverflow(sizes, k, x, width, spacing);
  }

  /** A child that goes on a row extends it by its `x`. */
  lemma FillRowCons(sizes: seq<Size<UPx>>, k: nat, x: UPx, width: UPx, spacing: UPx, childX: UPx, after: UPx)
    requires k < |sizes|
    requires childX == (if x == 0 then 0 else SatAdd(x, spacing)) && after == SatAdd(childX, sizes[k].width)
    requires !(x > 0 && after > width)
    ensures var rest := FillRow(sizes, k + 1, after, width, spacing);
      FillRow(sizes, k, x, width, spacing) == ([childX] + rest.0, rest.1)
  {
  }

  /** Every child on a row after the first ends within the width. */
  lemma {:induction false} FillRowFits(sizes: seq<Size<UPx>>, k: nat, x: UPx, width: UPx, spacing: UPx)
    requires k <= |sizes|
    ensures var r := FillRow(sizes, k, x, width, spacing);
      forall j :: 0 <= j < |r.0| && r.0[j] > 0 ==> SatAdd(r.0[j], sizes[k + j].width) <= width
    decreases |sizes| - k
  {
    if k < |sizes| {
      var childX := if x == 0 then 0 else SatAdd(x, spacing);
      var after := SatAdd(childX, sizes[k].width);
      if !(x > 0 && after > width) {
        FillRowFits(sizes, k + 1, after, width, spacing);
        FillRowCons(sizes, k, x, width, spacing, childX, after);
        var r := FillRow(sizes, k, x, width, spacing);
        var rest := FillRow(sizes, k + 1, after, width, spacing);
        forall j | 0 <= j < |r.0| && r.0[j] > 0
          ensures SatAdd(r.0[j], sizes[k + j].width) <= width
        {
          if j > 0 {
            assert r.0[j] == rest.0[j - 1];
          } else {
            assert x > 0;
          }
        }
      }
    }
  }

  /** A row stops before the last child only when that next child would
      have ended past the width. */
  lemma {:induction false} FillRowStopsOnOverflow(sizes: seq<Size<UPx>>, k: nat, x: UPx, width: UPx, spacing: UPx)
    requires k <= |sizes|
    ensures var r := FillRow(sizes, k, x, width, spacing);
      k + |r.0| < |sizes| ==> r.1 > 0 && SatAdd(SatAdd(r.1, spacing), sizes[k + |r.0|].width) > width
    decreases |sizes| - k
  {
    if k < |sizes| {
      var childX := if x == 0 then 0 else SatAdd(x, spacing);
      var after := SatAdd(childX, sizes[k].width);
      if !(x > 0 && after > width) {
        FillRowStopsOnOverflow(sizes, k + 1, after, width, spacing);
        FillRowCons(sizes, k, x, width, spacing, childX, after);
        var rest := FillRow(sizes, k + 1, after, width, spacing);
        if k + 1 + |rest.0| < |sizes| && rest.0 == [] {
          assert after > 0;
        }
      }
    }
  }

  /** The height of the row of children `s` to `e`: the tallest of them
      (`RowHeightIsTallest`). */
  function RowHeight(sizes: seq<Size<UPx>>, s: nat, e: nat): (h: nat)
    requires s <= e <= |sizes|
    ensures s == e ==> h == 0
    decreases e - s
  {
    if e == s then 0 else Max(RowHeight(sizes, s, e - 1), sizes[e - 1].height)
  }

  /** A row is as tall as its tallest child: no child is taller, and some
      child is that tall. */
  lemma {:induction false} RowHeightIsTallest(sizes: seq<Size<UPx>>, s: nat, e: nat)
    requires s <= e <= |sizes|
    ensures forall i :: s <= i < e ==> sizes[i].height <= RowHeight(sizes, s, e)
    ensures s < e ==> exists i :: s <= i < e && sizes[i].height == RowHeight(sizes, s, e)
    decreases e - s
  {
    if s < e {
      RowHeightIsTallest(sizes, s, e - 1);
      if s < e - 1 && RowHeight(sizes, s, e - 1) >= sizes[e - 1].height {
        var i :| s <= i < e - 1 && sizes[i].height == RowHeight(sizes, s, e - 1);
        assert sizes[i].height == RowHeight(sizes, s, e);
      } else {
        assert sizes[e - 1].height == RowHeight(sizes, s, e);
      }
    }
  }

  /** The height of a row as the layout loop computes it: the tallest of its
      children and of the child that did not fit, which is measured before
      the loop decides to break. */
  function RowHeightAsWritten(sizes: seq<Size<UPx>>, s: nat, e: nat): (h: nat)
    requires s <= e <= |sizes|
    ensures h >= RowHeight(sizes, s, e)
    ensures e < |sizes| ==> h >= sizes[e].height
  {
    if e < |sizes| then RowHeight(sizes, s, e + 1) else RowHeight(sizes, s, e)
  }

  /** As written, in a row 100 wide, a child 60 by 10 followed by one 60 by
      50 makes a first row holding only the short child but 50 tall. */
  lemma WrappedChildRaisesRowAsWritten()
    ensures var sizes := [Size(60, 10), Size(60, 50)];
      |FillRow(sizes, 0, 0, 100, 0).0| == 1
      && RowHeight(sizes, 0, 1) == 10 && RowHeightAsWritten(sizes, 0, 1) == 50
  {
    var sizes := [Size(60, 10), Size(60, 50)];
    assert FillRow(sizes, 1, 60, 100, 0) == ([], 60);
  }

  /** A placed child: its position and size. */
  datatype Placement = Placement(x: nat, y: nat, size: Size<UPx>)

  /** Placements `p` are the children from `k` on, in order, at their
      sizes, each between heights `lo` and `hi`. */
  predicate PlacedWithin(p: seq<Placement>, sizes: seq<Size<UPx>>, k: nat, lo: nat, hi: nat)
  {
    k + |p| <= |sizes|
    && forall i :: 0 <= i < |p| ==> p[i].size == sizes[k + i] && lo <= p[i].y && p[i].y + sizes[k + i].height <= hi
  }

  lemma PlacedWithinWiden(p: seq<Placement>, sizes: seq<Size<UPx>>, k: nat, lo: nat, hi: nat, lo': nat, hi': nat)
    requires PlacedWithin(p, sizes, k, lo, hi) && lo' <= lo && hi <= hi'
    ensures PlacedWithin(p, sizes, k, lo', hi')
  {
  }

  /** A row between `top` and `mid` followed by rows between `mid` and
      `hi` lie together between any `lo` above the row and `hi`. */
  lemma PlacedWithinJoin(p: seq<Placement>, q: seq<Placement>, sizes: seq<Size<UPx>>, k: nat, next: nat,
                          lo: nat, top: nat, mid: nat, hi: nat)
    requires PlacedWithin(p, sizes, k, top, mid) && PlacedWithin(q, sizes, next, mid, hi) && next == k + |p|
    requires lo <= top <= mid <= hi
    ensures PlacedWithin(p + q, sizes, k, lo, hi)
  {
    PlacedWithinWiden(p, sizes, k, top, mid, lo, hi);
    PlacedWithinWiden(q, sizes, k + |p|, mid, hi, lo, hi);
    PlacedWithinAppend(p, q, sizes, k, lo, hi);
  }

  lemma PlacedWithinAppend(p: seq<Placement>, q: seq<Placement>, sizes: seq<Size<UPx>>, k: nat, lo: nat, hi: nat)
    requires PlacedWithin(p, sizes, k, lo, hi) && PlacedWithin(q, sizes, k + |p|, lo, hi)
    ensures PlacedWithin(p + q, sizes, k, lo, hi)
  {
    forall i | 0 <= i < |p + q|
      ensures (p + q)[i].size == sizes[k + i] && lo <= (p + q)[i].y && (p + q)[i].y + sizes[k + i].height <= hi
    {
      if i >= |p| {
        assert (p + q)[i] == q[i - |p|];
      }
    }
  }

  /** The rows start at child zero and each holds exactly the children
      `FillRow` puts on it, up to child `index`. */
  ghost predicate RowsUpTo(rows: seq<nat>, sizes: seq<Size<UPx>>, index: nat, width: UPx, spacing: UPx)
  {
    index <= |sizes|
    && (rows == [] <==> index == 0)
    && (forall r :: 0 <= r < |rows| ==> rows[r] < |sizes|)
    && (forall r :: 0 <= r < |rows| - 1 ==> rows[r + 1] == rows[r] + |FillRow(sizes, rows[r], 0, width, spacing).0|)
    && (rows != [] ==> rows[0] == 0 && rows[|rows| - 1] + |FillRow(sizes, rows[|rows| - 1], 0, width, spacing).0| == index)
  }

  lemma RowsUpToNext(rows: seq<nat>, sizes: seq<Size<UPx>>, index: nat, width: UPx, spacing: UPx, next: nat)
    requires RowsUpTo(rows, sizes, index, width, spacing) && index < |sizes|
    requires next == index + |FillRow(sizes, index, 0, width, spacing).0|
    ensures RowsUpTo(rows + [index], sizes, next, width, spacing)
  {
    var rows' := rows + [index];
    forall r | 0 <= r < |rows'| - 1
      ensures rows'[r + 1] == rows'[r] + |FillRow(sizes, rows'[r], 0, width, spacing).0|
    {
      if r + 1 < |rows| {
        assert rows'[r + 1] == rows[r + 1] && rows'[r] == rows[r];
      }
    }
  }

  /** The leading offset and the extra space between children of a row of
      `count` children whose cursor ended at `x`: only a row with width to
      spare is aligned. */
  function RowAlignment(align: WrapAlign, order: HorizontalOrder, width: UPx, x: UPx, count: nat): (r: (nat, nat))
    requires count > 0
    ensures x >= width ==> r == (0, 0)
    ensures x < width ==> r == HorizontalAlignment(align, order, width - x, count)
  {
    var remaining := SatSub(width, x);
    if remaining > 0 then HorizontalAlignment(align, order, remaining, count) else (0, 0)
  }

  /** The placements of the children of one row, which starts at child
      `start`: the first at the leading offset plus its own `x`, the
      others as a row of their own whose leading offset has grown by the
      extra space (see `RowPlacementsAt`). */
  function RowPlacements(sizes: seq<Size<UPx>>, start: nat, rowXs: seq<UPx>, lead: nat, between: nat,
                         top: nat, rowHeight: nat, v: VerticalAlign): (p: seq<Placement>)
    requires start + |rowXs| <= |sizes|
    ensures |p| == |rowXs|
    decreases |rowXs|
  {
    if rowXs == [] then []
    else
      [Placement(lead + rowXs[0], top + VerticalOffset(v, rowHeight, sizes[start].height), sizes[start])]
        + RowPlacements(sizes, start + 1, rowXs[1..], lead + between, between, top, rowHeight, v)
  }

  /** Child `j` of a row goes at the leading offset plus the extra space
      once per child before it plus its own `x`, and at the row's top plus
      its vertical offset. */
  lemma {:induction false} RowPlacementsAt(sizes: seq<Size<UPx>>, start: nat, rowXs: seq<UPx>, lead: nat, between: nat,
                                           top: nat, rowHeight: nat, v: VerticalAlign, j: nat)
    requires start + |rowXs| <= |sizes| && j < |rowXs|
    ensures RowPlacements(sizes, start, rowXs, lead, between, top, rowHeight, v)[j] ==
      Placement(lead + between * j + rowXs[j], top + VerticalOffset(v, rowHeight, sizes[start + j].height), sizes[start + j])
    decreases j
  {
    if j > 0 {
      RowPlacementsAt(sizes, start + 1, rowXs[1..], lead + between, between, top, rowHeight, v, j - 1);
      MulSucc(between, j - 1);
    }
  }

  /** The first child of a row and the rest of it. */
  lemma {:induction false} RowPlacementsCons(sizes: seq<Size<UPx>>, start: nat, rowXs: seq<UPx>, lead: nat, between: nat,
                                             top: nat, rowHeight: nat, v: VerticalAlign, child: Placement)
    requires start + |rowXs| <= |sizes| && rowXs != []
    requires child == Placement(lead + rowXs[0], top + VerticalOffset(v, rowHeight, sizes[start].height), sizes[start])
    ensures RowPlacements(sizes, start, rowXs, lead, between, top, rowHeight, v) ==
      [child] + RowPlacements(sizes, start + 1, rowXs[1..], lead + between, between, top, rowHeight, v)
  {
  }

  /** A row's children lie between its top and its bottom when none is
      taller than the row. */
  lemma RowPlacementsWithin(sizes: seq<Size<UPx>>, start: nat, rowXs: seq<UPx>, lead: nat, between: nat,
                            top: nat, rowHeight: nat, v: VerticalAlign)
    requires start + |rowXs| <= |sizes|
    requires forall i :: start <= i < start + |rowXs| ==> sizes[i].height <= rowHeight
    ensures PlacedWithin(RowPlacements(sizes, start, rowXs, lead, between, top, rowHeight, v), sizes, start, top, top + rowHeight)
  {
    var p := RowPlacements(sizes, start, rowXs, lead, between, top, rowHeight, v);
    forall j | 0 <= j < |p|
      ensures p[j].size == sizes[start + j] && top <= p[j].y && p[j].y + sizes[start + j].height <= top + rowHeight
    {
      RowPlacementsAt(sizes, start, rowXs, lead, between, top, rowHeight, v, j);
    }
  }

  /** Where the layout loop places the children from child `index` on,
      once the rows above end at `y`: each row starts below the previous
      one plus the vertical spacing (none above the first row, or while
      everything above is zero tall), is as tall as its tallest child, and
      holds the children `FillRow` puts on it, aligned by `RowAlignment`. */
  function LaidOut(sizes: seq<Size<UPx>>, index: nat, y: nat, width: UPx, spacing: Size<UPx>,
                   align: WrapAlign, order: HorizontalOrder, v: VerticalAlign): (p: seq<Placement>)
    requires index <= |sizes|
    ensures |p| == |sizes| - index
    decreases |sizes| - index
  {
    if index == |sizes| then []
    else
      var top := RowTop(y, spacing.height);
      var row := FillRow(sizes, index, 0, width, spacing.width);
      var h := RowHeight(sizes, index, index + |row.0|);
      var a := RowAlignment(align, order, width, row.1, |row.0|);
      RowPlacements(sizes, index, row.0, a.0, a.1, top, h, v)
        + LaidOut(sizes, index + |row.0|, top + h, width, spacing, align, order, v)
  }

  /** The `y` after the last row the layout loop lays out from child
      `index` on, once the rows above end at `y`. */
  function LaidOutBottom(sizes: seq<Size<UPx>>, index: nat, y: nat, width: UPx, spacing: Size<UPx>): (bottom: nat)
    requires index <= |sizes|
    ensures bottom >= y
    decreases |sizes| - index
  {
    if index == |sizes| then y
    else
      var row := FillRow(sizes, index, 0, width, spacing.width);
      LaidOutBottom(sizes, index + |row.0|, RowTop(y, spacing.height) + RowHeight(sizes, index, index + |row.0|), width, spacing)
  }

  /** Where a row starts when the rows above end at `y`. */
  function RowTop(y: nat, spacing: UPx): (top: nat)
    ensures y > 0 ==> top == y + spacing
    ensures y == 0 ==> top == 0
  {
    if y != 0 then y + spacing else y
  }

  /** One row of `LaidOut`, with its parts named. */
  lemma {:induction false} LaidOutRow(sizes: seq<Size<UPx>>, index: nat, y: nat, width: UPx, spacing: Size<UPx>,
                   align: WrapAlign, order: HorizontalOrder, v: VerticalAlign,
                   rowXs: seq<UPx>, x: UPx, h: nat, lead: nat, between: nat,
                   next: nat, top: nat, y': nat, row: seq<Placement>)
    requires index < |sizes| && (rowXs, x) == FillRow(sizes, index, 0, width, spacing.width)
    requires h == RowHeight(sizes, index, index + |rowXs|) && (lead, between) == RowAlignment(align, order, width, x, |rowXs|)
    requires next == index + |rowXs| && top == RowTop(y, spacing.height) && y' == top + h
    requires row == RowPlacements(sizes, index, rowXs, lead, between, top, h, v)
    ensures next <= |sizes|
    ensures LaidOut(sizes, index, y, width, spacing, align, order, v) == row + LaidOut(sizes, next, y', width, spacing, align, order, v)
  {
  }

  /** The layout loop's progress: the children placed so far, before
      child `index`, are the start of the whole layout, and what remains
      ends where the whole layout does. */
  ghost predicate LaidOutSoFar(sizes: seq<Size<UPx>>, index: nat, y: nat, width: UPx, spacing: Size<UPx>,
                               align: WrapAlign, order: HorizontalOrder, v: VerticalAlign, placed: seq<Placement>)
  {
    index <= |sizes|
    && LaidOut(sizes, 0, 0, width, spacing, align, order, v) == placed + LaidOut(sizes, index, y, width, spacing, align, order, v)
    && LaidOutBottom(sizes, 0, 0, width, spacing) == LaidOutBottom(sizes, index, y, width, spacing)
  }

  /** Laying out one more row keeps the rows laid out so far a prefix of
      the whole layout, and the bottom of the whole layout unchanged. */
  lemma {:induction false} LaidOutStep(sizes: seq<Size<UPx>>, index: nat, y: nat, width: UPx, spacing: Size<UPx>,
                    align: WrapAlign, order: HorizontalOrder, v: VerticalAlign, placed: seq<Placement>,
                    rowXs: seq<UPx>, x: UPx, h: nat, lead: nat, between: nat,
                    index': nat, top: nat, y': nat, placed': seq<Placement>)
    requires index < |sizes| && (rowXs, x) == FillRow(sizes, index, 0, width, spacing.width)
    requires h == RowHeight(sizes, index, index + |rowXs|) && (lead, between) == RowAlignment(align, order, width, x, |rowXs|)
    requires LaidOutSoFar(sizes, index, y, width, spacing, align, order, v, placed)
    requires index' == index + |rowXs| && top == RowTop(y, spacing.height) && y' == top + h
    requires placed' == placed + RowPlacements(sizes, index, rowXs, lead, between, top, h, v)
    ensures LaidOutSoFar(sizes, index', y', width, spacing, align, order, v, placed')
  {
    var row := RowPlacements(sizes, index, rowXs, lead, between, top, h, v);
    LaidOutRow(sizes, index, y, width, spacing, align, order, v, rowXs, x, h, lead, between, index', top, y', row);
    LaidOutBottomRow(sizes, index, y, width, spacing, rowXs, x, h, index', y');
    AppendAssoc(placed, row, LaidOut(sizes, index', y', width, spacing, align, order, v));
  }

  /** One row of `LaidOutBottom`. */
  lemma {:induction false} LaidOutBottomRow(sizes: seq<Size<UPx>>, index: nat, y: nat, width: UPx, spacing: Size<UPx>,
                         rowXs: seq<UPx>, x: UPx, h: nat, next: nat, y': nat)
    requires index < |sizes| && (rowXs, x) == FillRow(sizes, index, 0, width, spacing.width)
    requires h == RowHeight(sizes, index, index + |rowXs|)
    requires next == index + |rowXs| && y' == RowTop(y, spacing.height) + h
    ensures next <= |sizes|
    ensures LaidOutBottom(sizes, index, y, width, spacing) == LaidOutBottom(sizes, next, y', width, spacing)
  {
  }

  /** The heights of the rows from child `index` on. */
  function RowHeights(sizes: seq<Size<UPx>>, index: nat, width: UPx, spacing: UPx): seq<nat>
    requires index <= |sizes|
    decreases |sizes| - index
  {
    if index == |sizes| then []
    else
      var row := FillRow(sizes, index, 0, width, spacing);
      [RowHeight(sizes, index, index + |row.0|)] + RowHeights(sizes, index + |row.0|, width, spacing)
  }

  /** The first row from child `index` and the heights of the rows after
      it. */
  lemma {:induction false} RowHeightsStep(sizes: seq<Size<UPx>>, index: nat, width: UPx, spacing: UPx, rowXs: seq<UPx>, x: UPx, h: nat)
    requires index < |sizes| && (rowXs, x) == FillRow(sizes, index, 0, width, spacing)
    requires h == RowHeight(sizes, index, index + |rowXs|)
    ensures RowHeights(sizes, index, width, spacing) == [h] + RowHeights(sizes, index + |rowXs|, width, spacing)
  {
  }

  /** Below some height, every further row adds the spacing and its own
      height. */
  lemma LaidOutHeightFrom(sizes: seq<Size<UPx>>, index: nat, y: nat, width: UPx, spacing: Size<UPx>)
    requires index <= |sizes| && y > 0
    ensures var hs := RowHeights(sizes, index, width, spacing.width);
      LaidOutBottom(sizes, index, y, width, spacing) == y + Sum(hs) + spacing.height * |hs|
  {
    LaidOutBottomSpaced(sizes, index, y, width, spacing);
    SpacedHeightIs(RowHeights(sizes, index, width, spacing.width), spacing.height);
  }

  /** The height of rows `hs` tall, each below a gap of `spacing`. */
  function SpacedHeight(hs: seq<nat>, spacing: nat): nat
  {
    if hs == [] then 0 else spacing + hs[0] + SpacedHeight(hs[1..], spacing)
  }

  lemma {:induction false} SpacedHeightIs(hs: seq<nat>, spacing: nat)
    ensures SpacedHeight(hs, spacing) == Sum(hs) + spacing * |hs|
  {
    if hs != [] {
      SpacedHeightIs(hs[1..], spacing);
      assert hs == [hs[0]] + hs[1..];
      SumCons(hs[0], hs[1..]);
      MulSucc(spacing, |hs| - 1);
    }
  }

  /** `LaidOutHeightFrom` with the spacing added row by row. */
  lemma {:induction false} LaidOutBottomSpaced(sizes: seq<Size<UPx>>, index: nat, y: nat, width: UPx, spacing: Size<UPx>)
    requires index <= |sizes| && y > 0
    ensures LaidOutBottom(sizes, index, y, width, spacing) == y + SpacedHeight(RowHeights(sizes, index, width, spacing.width), spacing.height)
    decreases |sizes| - index
  {
    if index < |sizes| {
      var row := FillRow(sizes, index, 0, width, spacing.width);
      var h := RowHeight(sizes, index, index + |row.0|);
      LaidOutBottomSpaced(sizes, index + |row.0|, y + spacing.height + h, width, spacing);
      LaidOutBottomSpacedStep(sizes, index, y, width, spacing, row.0, row.1, h, index + |row.0|);
    } else {
      assert RowHeights(sizes, index, width, spacing.width) == [];
    }
  }

  /** One row of `LaidOutBottomSpaced`. */
  lemma LaidOutBottomSpacedStep(sizes: seq<Size<UPx>>, index: nat, y: nat, width: UPx, spacing: Size<UPx>,
                                rowXs: seq<UPx>, x: UPx, h: nat, next: nat)
    requires index < |sizes| && (rowXs, x) == FillRow(sizes, index, 0, width, spacing.width)
    requires h == RowHeight(sizes, index, index + |rowXs|) && next == index + |rowXs| && y > 0
    requires next <= |sizes| && LaidOutBottom(sizes, next, y + spacing.height + h, width, spacing) ==
      y + spacing.height + h + SpacedHeight(RowHeights(sizes, next, width, spacing.width), spacing.height)
    ensures LaidOutBottom(sizes, index, y, width, spacing) == y + SpacedHeight(RowHeights(sizes, index, width, spacing.width), spacing.height)
  {
    LaidOutBottomRow(sizes, index, y, width, spacing, rowXs, x, h, next, y + spacing.height + h);
    RowHeightsStep(sizes, index, width, spacing.width, rowXs, x, h);
    var hs := RowHeights(sizes, index, width, spacing.width);
    assert hs[0] == h && hs[1..] == RowHeights(sizes, next, width, spacing.width);
  }

  /** The height `Wrap::layout` reports: the rows' heights with the
      spacing between each two rows, once the first row has any height;
      nothing at all without children. */
  lemma {:induction false} LaidOutHeight(sizes: seq<Size<UPx>>, width: UPx, spacing: Size<UPx>)
    ensures sizes == [] ==> LaidOutBottom(sizes, 0, 0, width, spacing) == 0
    ensures var hs := RowHeights(sizes, 0, width, spacing.width);
      hs != [] && hs[0] > 0 ==> LaidOutBottom(sizes, 0, 0, width, spacing) == Sum(hs) + spacing.height * (|hs| - 1)
  {
    if sizes != [] {
      var row := FillRow(sizes, 0, 0, width, spacing.width);
      var h := RowHeight(sizes, 0, |row.0|);
      var rest := RowHeights(sizes, |row.0|, width, spacing.width);
      RowHeightsStep(sizes, 0, width, spacing.width, row.0, row.1, h);
      if h > 0 {
        LaidOutBottomRow(sizes, 0, 0, width, spacing, row.0, row.1, h, |row.0|, h);
        LaidOutHeightFrom(sizes, |row.0|, h, width, spacing);
        SumCons(h, rest);
      }
    }
  }

  /** The inner loop of `Wrap::layout`: the children that fit on the row
      starting at child `start`, their `x`, the row's width and its height.
      The height is taken after deciding that a child fits; the source
      takes it before (see `RowHeightAsWritten`). */
  method FillNextRow(sizes: seq<Size<UPx>>, start: nat, width: UPx, spacing: UPx)
    returns (rowXs: seq<UPx>, x: UPx, maxHeight: nat)
    requires start < |sizes|
    ensures (rowXs, x) == FillRow(sizes, start, 0, width, spacing)
    ensures maxHeight == RowHeight(sizes, start, start + |rowXs|)
  {
    var index := start;
    x, maxHeight, rowXs := 0, 0, [];
    var full := false;
    while index < |sizes| && !full
      invariant start <= index <= |sizes| && |rowXs| == index - start
      invariant index == start ==> x == 0 && !full
      invariant FillRow(sizes, start, 0, width, spacing).0 == rowXs + FillRow(sizes, index, x, width, spacing).0
      invariant FillRow(sizes, start, 0, width, spacing).1 == FillRow(sizes, index, x, width, spacing).1
      invariant full ==> FillRow(sizes, index, x, width, spacing) == ([], x)
      invariant maxHeight == RowHeight(sizes, start, index)
      decreases |sizes| - index, if full then 0 else 1
    {
      var childX := if x == 0 then 0 else SatAdd(x, spacing);
      var after := SatAdd(childX, sizes[index].width);
      if x > 0 && after > width {
        full := true;
      } else {
        AppendAssoc(rowXs, [childX], FillRow(sizes, index + 1, after, width, spacing).0);
        rowXs := rowXs + [childX];
        maxHeight := Max(maxHeight, sizes[index].height);
        x := after;
        index := index + 1;
      }
    }
    assert FillRow(sizes, index, x, width, spacing) == ([], x);
    assert rowXs + [] == rowXs;
  }

  /** Placing child `j` of a row moves it from the row still to place to
      the children placed. */
  lemma {:induction false} PlaceChildStep(sizes: seq<Size<UPx>>, start: nat, rowXs: seq<UPx>, j: nat, offset: nat, between: nat,
                                          top: nat, rowHeight: nat, v: VerticalAlign, child: Placement,
                                          before: seq<Placement>, after: seq<Placement>)
    requires start + |rowXs| <= |sizes| && j < |rowXs|
    requires child == Placement(offset + rowXs[j], top + VerticalOffset(v, rowHeight, sizes[start + j].height), sizes[start + j])
    requires after == before + [child]
    ensures before + RowPlacements(sizes, start + j, rowXs[j..], offset, between, top, rowHeight, v) ==
      after + RowPlacements(sizes, start + j + 1, rowXs[j + 1..], offset + between, between, top, rowHeight, v)
  {
    assert rowXs[j..][0] == rowXs[j] && rowXs[j..][1..] == rowXs[j + 1..];
    RowPlacementsCons(sizes, start + j, rowXs[j..], offset, between, top, rowHeight, v, child);
    AppendAssoc(before, [child], RowPlacements(sizes, start + j + 1, rowXs[j + 1..], offset + between, between, top, rowHeight, v));
  }

  /** The positioning loop of `Wrap::layout`: each child of the row goes
      at the leading offset plus the extra space once per child before it
      plus its own `x`, and at the row's top plus its vertical offset. */
  method PlaceRowChildren(sizes: seq<Size<UPx>>, placed: seq<Placement>, rowXs: seq<UPx>, lead: nat, between: nat,
                          top: nat, rowHeight: nat, v: VerticalAlign)
    returns (placed': seq<Placement>)
    requires |placed| + |rowXs| <= |sizes|
    requires forall i :: |placed| <= i < |placed| + |rowXs| ==> sizes[i].height <= rowHeight
    ensures |placed'| == |placed| + |rowXs| && placed'[..|placed|] == placed
    ensures PlacedWithin(placed'[|placed|..], sizes, |placed|, top, top + rowHeight)
    ensures forall j :: 0 <= j < |rowXs| ==> (placed'[|placed| + j] ==
      Placement(lead + between * j + rowXs[j], top + VerticalOffset(v, rowHeight, sizes[|placed| + j].height), sizes[|placed| + j]))
    ensures placed' == placed + RowPlacements(sizes, |placed|, rowXs, lead, between, top, rowHeight, v)
  {
    var start := |placed|;
    placed' := placed;
    var additional: nat := lead;
    var j := 0;
    while j < |rowXs|
      invariant 0 <= j <= |rowXs| && |placed'| == start + j
      invariant j == 0 ==> additional == lead
      invariant placed + RowPlacements(sizes, start, rowXs, lead, between, top, rowHeight, v) ==
        placed' + RowPlacements(sizes, start + j, rowXs[j..], if j == 0 then additional else additional + between, between, top, rowHeight, v)
    {
      if j > 0 {
        additional := additional + between;
      }
      var child := Placement(additional + rowXs[j], top + VerticalOffset(v, rowHeight, sizes[start + j].height), sizes[start + j]);
      ghost var before := placed';
      placed' := placed' + [child];
      PlaceChildStep(sizes, start, rowXs, j, additional, between, top, rowHeight, v, child, before, placed');
      j := j + 1;
    }
    assert rowXs[j..] == [] && placed' + [] == placed';
    RowPlacementsAppended(sizes, placed, rowXs, lead, between, top, rowHeight, v, placed');
  }

  /** What appending a row's placements to the children placed so far
      gives: the earlier children unchanged, and each child of the row at
      its place. */
  lemma RowPlacementsAppended(sizes: seq<Size<UPx>>, placed: seq<Placement>, rowXs: seq<UPx>, lead: nat, between: nat,
                              top: nat, rowHeight: nat, v: VerticalAlign, placed': seq<Placement>)
    requires |placed| + |rowXs| <= |sizes|
    requires forall i :: |placed| <= i < |placed| + |rowXs| ==> sizes[i].height <= rowHeight
    requires placed' == placed + RowPlacements(sizes, |placed|, rowXs, lead, between, top, rowHeight, v)
    ensures |placed'| == |placed| + |rowXs| && placed'[..|placed|] == placed
    ensures PlacedWithin(placed'[|placed|..], sizes, |placed|, top, top + rowHeight)
    ensures forall j :: 0 <= j < |rowXs| ==> (placed'[|placed| + j] ==
      Placement(lead + between * j + rowXs[j], top + VerticalOffset(v, rowHeight, sizes[|placed| + j].height), sizes[|placed| + j]))
  {
    var start := |placed|;
    var row := RowPlacements(sizes, start, rowXs, lead, between, top, rowHeight, v);
    assert placed'[..start] == placed;
    assert placed'[start..] == row;
    forall j | 0 <= j < |rowXs|
      ensures placed'[start + j] ==
        Placement(lead + between * j + rowXs[j], top + VerticalOffset(v, rowHeight, sizes[start + j].height), sizes[start + j])
    {
      assert placed'[start + j] == row[j];
      RowPlacementsAt(sizes, start, rowXs, lead, between, top, rowHeight, v, j);
    }
    RowPlacementsWithin(sizes, start, rowXs, lead, between, top, rowHeight, v);
  }

  /** One pass of the row loop of `Wrap::layout`: below the spacing when
      anything above has height, fills the next row, aligns it along the
      width and places its children; the whole layout keeps the children
      placed so far as its start and ends where it did. */
  method LayoutRow(sizes: seq<Size<UPx>>, placed: seq<Placement>, index: nat, y: nat, width: UPx, spacing: Size<UPx>,
                   align: WrapAlign, order: HorizontalOrder, v: VerticalAlign)
    returns (placed': seq<Placement>, index': nat, y': nat)
    requires index < |sizes| && |placed| == index
    requires LaidOutSoFar(sizes, index, y, width, spacing, align, order, v, placed)
    requires PlacedWithin(placed, sizes, 0, 0, y)
    ensures index' == index + |FillRow(sizes, index, 0, width, spacing.width).0| && |placed'| == index'
    ensures index < index' <= |sizes|
    ensures LaidOutSoFar(sizes, index', y', width, spacing, align, order, v, placed')
    ensures PlacedWithin(placed', sizes, 0, 0, y')
  {
    var top := y;
    if y != 0 {
      top := y + spacing.height;
    }
    assert top == RowTop(y, spacing.height);
    var rowXs, x, maxHeight := FillNextRow(sizes, index, width, spacing.width);
    // Calculate the horizontal alignment.
    var remaining := SatSub(width, x);
    var lead, between := 0, 0;
    if remaining > 0 {
      var aligned := HorizontalAlignment(align, order, remaining, |rowXs|);
      lead, between := aligned.0, aligned.1;
    }
    assert (lead, between) == RowAlignment(align, order, width, x, |rowXs|);
    RowHeightIsTallest(sizes, index, index + |rowXs|);
    placed' := PlaceRowChildren(sizes, placed, rowXs, lead, between, top, maxHeight, v);
    index' := index + |rowXs|;
    y' := top + maxHeight;
    LaidOutStep(sizes, index, y, width, spacing, align, order, v, placed, rowXs, x, maxHeight, lead, between, index', top, y', placed');
    assert placed' == placed + placed'[index..];
    PlacedWithinJoin(placed, placed'[index..], sizes, 0, index, 0, 0, y, y');
  }

  /** `Wrap::layout`: fills rows, aligns each row along the width, places
      each child at the row's top plus its vertical offset, and reports the
      available width and the height of the rows with the spacing between
      them. Every child is laid out exactly once, in order, within the
      reported height, and the rows are those `FillRow` describes. */
  method Layout(sizes: seq<Size<UPx>>, available: Size<ConstraintLimit>, spacing: Size<UPx>,
                align: WrapAlign, order: HorizontalOrder, v: VerticalAlign)
    returns (placed: seq<Placement>, size: Size<nat>, ghost rows: seq<nat>)
    ensures |placed| == |sizes|
    ensures PlacedWithin(placed, sizes, 0, 0, size.height)
    ensures size.width == MaxOf(available.width)
    ensures RowsUpTo(rows, sizes, |sizes|, MaxOf(available.width), spacing.width)
    ensures placed == LaidOut(sizes, 0, 0, MaxOf(available.width), spacing, align, order, v)
    ensures size.height == LaidOutBottom(sizes, 0, 0, MaxOf(available.width), spacing)
  {
    var width := MaxOf(available.width);
    var y: nat := 0;
    var index: nat := 0;
    placed := [];
    rows := [];
    assert placed + LaidOut(sizes, 0, 0, width, spacing, align, order, v) == LaidOut(sizes, 0, 0, width, spacing, align, order, v);
    assert LaidOutSoFar(sizes, 0, 0, width, spacing, align, order, v, placed);
    while index < |sizes|
      invariant index <= |sizes| && |placed| == index
      invariant PlacedWithin(placed, sizes, 0, 0, y)
      invariant RowsUpTo(rows, sizes, index, width, spacing.width)
      invariant LaidOutSoFar(sizes, index, y, width, spacing, align, order, v, placed)
      decreases |sizes| - index
    {
      ghost var index0 := index;
      placed, index, y := LayoutRow(sizes, placed, index, y, width, spacing, align, order, v);
      RowsUpToNext(rows, sizes, index0, width, spacing.width, index);
      rows := rows + [index0];
    }
    size := Size(width, y);
    assert LaidOut(sizes, index, y, width, spacing, align, order, v) == [];
    assert placed + [] == placed;
  }
}
