/** The row window of the `VirtualList` widget (src/widgets/virtual_list.rs):
    which rows a list of `count` equally tall rows keeps mounted for a
    scroll position, how it brings its deque of rows to that window, and
    the range of rows it reports as visible. Rows are their indices; the
    mounting and layout of each row, the scrollbars and the measuring of the
    first row are not part of this model, so the measured row size and the
    control size are parameters. Lengths are whole pixels. */
module CushyVirtualList {
  import opened Common
  import opened CushyConstraint

  /** The rows `from` up to, but not including, `to`. */
  function Span(from: nat, to: nat): (r: seq<nat>)
    ensures |r| == (if from <= to then to - from else 0)
    ensures forall k :: 0 <= k < |r| ==> r[k] == from + k
    decreases if from <= to then to - from else 0
  {
    if from >= to then [] else [from] + Span(from + 1, to)
  }

  /** A deque of rows is contiguous: each row follows the previous one. */
  predicate Contiguous(items: seq<nat>)
  {
    forall k :: 0 < k < |items| ==> items[k] == items[0] + k
  }

  /** `scroll.min(max_scroll)` (virtual_list.rs:275-277): the scroll
      position is at most the row width past the control, and at most the
      content height past the control, each saturating at zero. */
  function ClampScroll(scrollX: nat, scrollY: nat, itemWidth: nat, controlWidth: nat, contentHeight: nat, controlHeight: nat): (r: (nat, nat))
    ensures r.0 <= scrollX && r.1 <= scrollY
    ensures r.0 + controlWidth <= Max(itemWidth, controlWidth) && r.1 + controlHeight <= Max(contentHeight, controlHeight)
    ensures r.0 == scrollX || r.0 == SatSub(itemWidth, controlWidth)
    ensures r.1 == scrollY || r.1 == SatSub(contentHeight, controlHeight)
  {
    (Min(scrollX, SatSub(itemWidth, controlWidth)), Min(scrollY, SatSub(contentHeight, controlHeight)))
  }

  /** The first row shown, `floor(scroll / height)` (virtual_list.rs:279):
      the row whose span holds the scroll position. */
  function StartRow(scrollY: nat, itemHeight: nat): (r: nat)
    requires itemHeight > 0
    ensures r * itemHeight <= scrollY < (r + 1) * itemHeight
  {
    scrollY / itemHeight
  }

  /** `ceil((scroll + control height) / height)`: the first row that starts
      at or after the bottom of the control. */
  function PastRow(scrollY: nat, controlHeight: nat, itemHeight: nat): (r: nat)
    requires itemHeight > 0
    ensures r * itemHeight >= scrollY + controlHeight
    ensures r == 0 || (r - 1) * itemHeight < scrollY + controlHeight
  {
    (scrollY + controlHeight + itemHeight - 1) / itemHeight
  }

  /** The last row kept mounted (virtual_list.rs:280-283): the first row
      past the control, or the last row when the list ends before it. */
  function EndRow(scrollY: nat, controlHeight: nat, itemHeight: nat, count: nat): (r: nat)
    requires itemHeight > 0 && count > 0
    ensures r < count
    ensures r == Min(PastRow(scrollY, controlHeight, itemHeight), count - 1)
  {
    Min(PastRow(scrollY, controlHeight, itemHeight), count - 1)
  }

  /** A row shows in the control when its span meets the control's span. */
  predicate Shows(k: nat, scrollY: nat, controlHeight: nat, itemHeight: nat, count: nat)
  {
    k < count && k * itemHeight < scrollY + controlHeight && scrollY < (k + 1) * itemHeight
  }

  /** Every row that shows is kept mounted. */
  lemma ShownRowsMounted(k: nat, scrollY: nat, controlHeight: nat, itemHeight: nat, count: nat)
    requires itemHeight > 0 && count > 0 && Shows(k, scrollY, controlHeight, itemHeight, count)
    ensures StartRow(scrollY, itemHeight) <= k <= EndRow(scrollY, controlHeight, itemHeight, count)
  {
    var s := StartRow(scrollY, itemHeight);
    if k < s {
      assert (k + 1) * itemHeight <= s * itemHeight by {
        MulMono(k + 1, s, itemHeight);
      }
    }
    var p := PastRow(scrollY, controlHeight, itemHeight);
    if k > p {
      MulMono(p, k, itemHeight);
    }
  }

  /** Multiplication by a length keeps order. */
  lemma MulMono(a: nat, b: nat, h: nat)
    requires a <= b
    ensures a * h <= b * h
  {
  }

  /** The visible range as written (virtual_list.rs:285): `start..end`
      with the last kept row `end` excluded. */
  function VisibleRangeAsWritten(scrollY: nat, controlHeight: nat, itemHeight: nat, count: nat): (r: (nat, nat))
    requires itemHeight > 0 && count > 0
    ensures r == (StartRow(scrollY, itemHeight), EndRow(scrollY, controlHeight, itemHeight, count))
  {
    (StartRow(scrollY, itemHeight), EndRow(scrollY, controlHeight, itemHeight, count))
  }

  /** As written, scrolled to the end of three rows of height 10 shown in
      a control 30 high, the last row shows but is outside the visible
      range. */
  lemma VisibleRangeAsWrittenMissesLastRow()
    ensures Shows(2, 0, 30, 10, 3)
    ensures var r := VisibleRangeAsWritten(0, 30, 10, 3); !(r.0 <= 2 < r.1)
  {
    assert PastRow(0, 30, 10) == 3;
  }

  /** The visible range as intended: from the first row shown up to the
      first row past the control, or to the end of the list. */
  function VisibleRange(scrollY: nat, controlHeight: nat, itemHeight: nat, count: nat): (r: (nat, nat))
    requires itemHeight > 0 && count > 0
    ensures forall k: nat :: r.0 <= k < r.1 <==> Shows(k, scrollY, controlHeight, itemHeight, count)
  {
    var r := (StartRow(scrollY, itemHeight), Min(PastRow(scrollY, controlHeight, itemHeight), count));
    forall k: nat
      ensures r.0 <= k < r.1 <==> Shows(k, scrollY, controlHeight, itemHeight, count)
    {
      VisibleRangeStep(k, scrollY, controlHeight, itemHeight, count);
    }
    r
  }

  /** One row of `VisibleRange`'s equivalence. */
  lemma VisibleRangeStep(k: nat, scrollY: nat, controlHeight: nat, itemHeight: nat, count: nat)
    requires itemHeight > 0 && count > 0
    ensures StartRow(scrollY, itemHeight) <= k < Min(PastRow(scrollY, controlHeight, itemHeight), count)
            <==> Shows(k, scrollY, controlHeight, itemHeight, count)
  {
    var s := StartRow(scrollY, itemHeight);
    var p := PastRow(scrollY, controlHeight, itemHeight);
    if s <= k < Min(p, count) {
      MulMono(s + 1, k + 1, itemHeight);
      if k * itemHeight >= scrollY + controlHeight {
        MulMono(k, p - 1, itemHeight);
      }
    }
    if Shows(k, scrollY, controlHeight, itemHeight, count) {
      if k < s {
        MulMono(k + 1, s, itemHeight);
      }
      if k >= p {
        MulMono(p, k, itemHeight);
      }
    }
  }

  /** The top of the row at position `p` of the deque as laid out
      (virtual_list.rs:321-333): rows follow each other from minus the
      scroll's remainder in a row, so each row sits at its own offset in
      the content minus the scroll position. */
  lemma {:induction false} RowTop(items: seq<nat>, p: nat, scrollY: nat, itemHeight: nat)
    requires itemHeight > 0 && p < |items| && Contiguous(items) && items[0] == StartRow(scrollY, itemHeight)
    ensures p * itemHeight - scrollY % itemHeight == items[p] * itemHeight - scrollY
  {
    assert items[p] == items[0] + p;
    assert scrollY == items[0] * itemHeight + scrollY % itemHeight;
  }

  /** Whether the deque shares no row with the window `start..=end` and is
      rebuilt (virtual_list.rs:290). */
  predicate Disjoint(items: seq<nat>, start: nat, end: nat)
  {
    items == [] || items[0] > end || items[|items| - 1] < start
  }

  /** The upkeep of the deque (virtual_list.rs:287-319): a deque that
      shares no row with the window is cleared and filled with the window;
      otherwise the rows before the window are popped from the front, the
      rows after it from the back, and the missing rows pushed at either
      end. Afterwards the deque is the window; `made` are the rows mounted
      and `removed` the rows dropped. */
  method Upkeep(items: seq<nat>, start: nat, end: nat) returns (items': seq<nat>, made: seq<nat>, removed: seq<nat>)
    requires Contiguous(items)
    ensures items' == Span(start, end + 1)
    ensures Disjoint(items, start, end) ==> removed == items && made == items'
    ensures !Disjoint(items, start, end) ==> forall k :: k in removed <==> k in items && !(start <= k <= end)
    ensures !Disjoint(items, start, end) ==> forall k :: k in made <==> k in items' && k !in items
  {
    if Disjoint(items, start, end) {
      removed := items;
      items' := Span(start, end + 1);
      made := items';
      return;
    }
    var first, last := items[0], items[|items| - 1];
    ContiguousSpan(items);
    var lo: nat := Max(first, Min(start, last + 1));
    var hi: nat := Max(lo, Min(last + 1, end + 1));
    var front, back, before, after;
    items', front := PopBefore(items, first, last + 1, start);
    items', back := PopAfter(items', lo, last + 1, end);
    assert items' == Span(lo, hi);
    items', before := PushBefore(items', first, hi, start);
    assert items' == Span(start, hi);
    items', after := PushAfter(items', start, last, end);
    assert items' == Span(start, end + 1) by {
      if last >= end && start > end + 1 {
        assert hi == start;
      }
    }
    removed, made := front + back, before + after;
    TrimAccounts(first, last, start, end, front, back, before, after);
  }

  /** When the deque `first..=last` meets the window `start..=end`, the rows
      popped are those outside the window and the rows pushed are those of
      the window that were not in the deque. */
  lemma TrimAccounts(first: nat, last: nat, start: nat, end: nat, front: seq<nat>, back: seq<nat>, before: seq<nat>, after: seq<nat>)
    requires first <= last && first <= end && start <= last
    requires front == Span(first, Max(first, Min(start, last + 1)))
    requires Covers(back, Max(Max(first, Min(start, last + 1)), Min(last + 1, end + 1)), last + 1)
    requires Covers(before, start, first)
    requires Covers(after, last + 1, end + 1)
    ensures forall k :: k in front + back <==> k in Span(first, last + 1) && !(start <= k <= end)
    ensures forall k :: k in before + after <==> k in Span(start, end + 1) && k !in Span(first, last + 1)
  {
    SpanHas(start, end + 1);
    SpanHas(first, last + 1);
    SpanHas(first, Max(first, Min(start, last + 1)));
  }

  /** The rows of `s` are exactly those from `lo` up to `hi`. */
  ghost predicate Covers(s: seq<nat>, lo: nat, hi: nat)
  {
    forall x :: x in s <==> lo <= x < hi
  }

  /** The first loop of the upkeep (virtual_list.rs:296-303): rows before
      `start` are popped from the front of the span `lo..hi`. */
  method PopBefore(items: seq<nat>, lo: nat, hi: nat, start: nat) returns (items': seq<nat>, removed: seq<nat>)
    requires items == Span(lo, hi)
    ensures items' == Span(Max(lo, Min(start, hi)), hi) && removed == Span(lo, Max(lo, Min(start, hi)))
  {
    items', removed := items, [];
    var k := lo;
    while items' != [] && items'[0] < start
      invariant lo <= k <= Max(lo, Min(start, hi)) && items' == Span(k, hi) && removed == Span(lo, k)
      decreases |items'|
    {
      SpanSnoc(lo, k);
      removed := removed + [items'[0]];
      items' := items'[1..];
      k := k + 1;
    }
  }

  /** The second loop of the upkeep (virtual_list.rs:304-311): rows after
      `end` are popped from the back of the span `lo..hi`. */
  method PopAfter(items: seq<nat>, lo: nat, hi: nat, end: nat) returns (items': seq<nat>, removed: seq<nat>)
    requires items == Span(lo, hi) && lo <= hi
    ensures items' == Span(lo, Max(lo, Min(hi, end + 1)))
    ensures Covers(removed, Max(lo, Min(hi, end + 1)), hi)
  {
    items', removed := items, [];
    var k := hi;
    while items' != [] && items'[|items'| - 1] > end
      invariant Max(lo, Min(hi, end + 1)) <= k <= hi && items' == Span(lo, k)
      invariant forall x :: x in removed <==> k <= x < hi
      decreases |items'|
    {
      SpanSnoc(lo, k - 1);
      removed := removed + [items'[|items'| - 1]];
      items' := items'[..|items'| - 1];
      k := k - 1;
    }
  }

  /** The third loop of the upkeep (virtual_list.rs:313-315): the rows
      from `start` up to the first row are pushed at the front, last
      first. */
  method PushBefore(items: seq<nat>, first: nat, hi: nat, start: nat) returns (items': seq<nat>, made: seq<nat>)
    requires start < first ==> items == Span(first, hi) && first <= hi
    ensures items' == if start < first then Span(start, hi) else items
    ensures Covers(made, start, first)
  {
    items', made := items, [];
    var k := first;
    while k > start
      invariant Min(start, first) <= k <= first
      invariant items' == if k < first then Span(k, hi) else items
      invariant forall x :: x in made <==> k <= x < first
    {
      k := k - 1;
      items' := [k] + items';
      made := [k] + made;
    }
  }

  /** The last step of the upkeep (virtual_list.rs:316-318): the rows after
      the last row up to `end` are pushed at the back. */
  method PushAfter(items: seq<nat>, from: nat, last: nat, end: nat) returns (items': seq<nat>, made: seq<nat>)
    requires last < end ==> items == Span(from, last + 1) && from <= last + 1
    ensures items' == if last < end then Span(from, end + 1) else items
    ensures Covers(made, last + 1, end + 1)
  {
    items', made := items, [];
    var n := last + 1;
    while n <= end
      invariant last + 1 <= n <= Max(last + 1, end + 1)
      invariant items' == if n > last + 1 then Span(from, n) else items
      invariant forall x :: x in made <==> last < x < n
    {
      SpanSnoc(from, n);
      items' := items' + [n];
      made := made + [n];
      n := n + 1;
    }
  }

  /** The upkeep loses no row without removing it and gains none
      without making it. */
  lemma UpkeepAccounts(items: seq<nat>, start: nat, end: nat, items': seq<nat>, made: seq<nat>, removed: seq<nat>)
    requires Contiguous(items) && items' == Span(start, end + 1)
    requires Disjoint(items, start, end) ==> removed == items && made == items'
    requires !Disjoint(items, start, end) ==> forall k :: k in removed <==> k in items && !(start <= k <= end)
    requires !Disjoint(items, start, end) ==> forall k :: k in made <==> k in items' && k !in items
    ensures forall x :: x in items' && x !in items ==> x in made
    ensures forall x :: x in items && x !in items' ==> x in removed
  {
    SpanHas(start, end + 1);
  }

  /** A span holds exactly the rows from its start up to its end. */
  lemma SpanHas(from: nat, to: nat)
    ensures forall x :: x in Span(from, to) <==> from <= x < to
  {
    var r := Span(from, to);
    forall x | from <= x < to
      ensures x in r
    {
      assert r[x - from] == x;
    }
  }

  /** A span grows by its end. */
  lemma SpanSnoc(from: nat, to: nat)
    requires from <= to
    ensures Span(from, to) + [to] == Span(from, to + 1)
  {
    assert (Span(from, to) + [to])[to - from] == to;
  }

  /** A contiguous deque is the span from its first row. */
  lemma {:induction false} ContiguousSpan(items: seq<nat>)
    requires Contiguous(items) && items != []
    ensures items == Span(items[0], items[0] + |items|)
  {
    var r := Span(items[0], items[0] + |items|);
    assert |r| == |items|;
    assert forall k :: 0 <= k < |items| ==> items[k] == r[k];
  }

  /** `VirtualList`: the deque of mounted rows, the contents generation
      they were made for, and the range it reports as visible. */
  class VirtualList {
    var items: seq<nat>
    var contentsGeneration: nat
    var visibleRange: (nat, nat)

    /** The deque holds a contiguous run of rows. */
    ghost predicate Valid()
      reads this
    {
      Contiguous(items)
    }

    /** A list with no rows mounted yet. */
    constructor (generation: nat)
      ensures Valid() && items == [] && contentsGeneration == generation && visibleRange == (0, 0)
    {
      items := [];
      contentsGeneration := generation;
      visibleRange := (0, 0);
    }

    /** `VirtualList::layout` (virtual_list.rs:406-415): an empty list
        takes the least space it is offered and keeps its rows; otherwise
        the rows are laid out for the control size. */
    method Layout(count: nat, available: Size<ConstraintLimit>, generation: nat, itemSize: Size<nat>, control: Size<nat>,
                  scrollX: nat, scrollY: nat) returns (size: Size<nat>, made: seq<nat>, removed: seq<nat>)
      requires Valid() && itemSize.height > 0
      modifies this
      ensures Valid()
      ensures count == 0 ==> size == Size(MinOf(available.width), MinOf(available.height))
                             && items == old(items) && made == [] && removed == []
      ensures count > 0 ==> size == control
      ensures count > 0 ==> var sy := ClampScroll(scrollX, scrollY, Max(itemSize.width, control.width), control.width,
                                                 itemSize.height * count, control.height).1;
              items == Span(StartRow(sy, itemSize.height), EndRow(sy, control.height, itemSize.height, count) + 1)
              && visibleRange == VisibleRange(sy, control.height, itemSize.height, count)
      ensures forall x :: x in items && x !in old(items) ==> x in made
      ensures forall x :: x in old(items) && x !in items ==> x in removed
    {
      if count == 0 {
        return Size(MinOf(available.width), MinOf(available.height)), [], [];
      }
      made, removed := LayoutRows(count, generation, itemSize, control, scrollX, scrollY);
      size := control;
    }

    /** `VirtualList::layout_rows` (virtual_list.rs:247-340): rows made for
        an older contents generation are dropped; row 0 is mounted when
        none is, to measure the row size; the scroll position is clamped;
        and the deque is brought to the rows from the one at the scroll
        position to the first one past the control (or the last row). The
        visible range is the rows that show. */
    method LayoutRows(count: nat, generation: nat, itemSize: Size<nat>, control: Size<nat>, scrollX: nat, scrollY: nat)
      returns (made: seq<nat>, removed: seq<nat>)
      requires Valid() && count > 0 && itemSize.height > 0
      modifies this
      ensures Valid() && contentsGeneration == generation
      ensures var sy := ClampScroll(scrollX, scrollY, Max(itemSize.width, control.width), control.width,
                                    itemSize.height * count, control.height).1;
              items == Span(StartRow(sy, itemSize.height), EndRow(sy, control.height, itemSize.height, count) + 1)
              && visibleRange == VisibleRange(sy, control.height, itemSize.height, count)
      ensures forall x :: x in items && x !in old(items) ==> x in made
      ensures forall x :: x in old(items) && x !in items ==> x in removed
    {
      made, removed := [], [];
      if generation != contentsGeneration {
        contentsGeneration := generation;
        removed := items;
        items := [];
      }
      if items == [] {
        items := [0];
        made := [0];
      }
      var width := Max(itemSize.width, control.width);
      var scroll := ClampScroll(scrollX, scrollY, width, control.width, itemSize.height * count, control.height);
      var start := StartRow(scroll.1, itemSize.height);
      var end := EndRow(scroll.1, control.height, itemSize.height, count);
      visibleRange := VisibleRange(scroll.1, control.height, itemSize.height, count);
      var next, m, r := Upkeep(items, start, end);
      UpkeepAccounts(items, start, end, next, m, r);
      items, made, removed := next, made + m, removed + r;
    }
  }
}
