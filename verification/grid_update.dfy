/** The measuring passes of `GridLayout::update` (src/widgets/grid.rs:392-623),
    shared by the `Grid` and `Stack` widgets. Each child of the layout is
    measured along one axis (the "measured" axis); each element of the
    child (a cell of a grid row, the single element of a stack child) also
    has a length on the other axis, and the layout keeps the largest of them
    per element as `others`. Measuring a child is a parameter: the function
    from the child's index, the element and the constraint to the size the
    child reports. Offsets grow without bound; the explicitly saturating
    operations of the source saturate. */
module CushyGridUpdate {
  import opened Common
  import opened CushyConstraint
  import opened CushyStyles

  /** `Orientation`: `Row` measures heights and lays children out top to
      bottom; `Column` measures widths and lays them out left to right. */
  datatype Orientation = Row | Column

  /** `Orientation::split_size`: the measured length and the other length. */
  function SplitSize<T>(o: Orientation, s: Size<T>): (r: (T, T))
  {
    match o
    case Row => (s.height, s.width)
    case Column => (s.width, s.height)
  }

  /** `Orientation::make_size`. */
  function MakeSize<T>(o: Orientation, measured: T, other: T): (s: Size<T>)
  {
    match o
    case Row => Size(other, measured)
    case Column => Size(measured, other)
  }

  /** `figures::Point`. */
  datatype Point<T> = Point(x: T, y: T)

  /** `Orientation::make_point`. */
  function MakePoint<T>(o: Orientation, measured: T, other: T): (p: Point<T>)
  {
    match o
    case Row => Point(other, measured)
    case Column => Point(measured, other)
  }

  /** Splitting and making are inverse, and a point made from an offset
      pair lies on the same axes as the size made from a length pair. */
  lemma SplitMakeRoundTrip<T>(o: Orientation, s: Size<T>, measured: T, other: T)
    ensures MakeSize(o, SplitSize(o, s).0, SplitSize(o, s).1) == s
    ensures SplitSize(o, MakeSize(o, measured, other)) == (measured, other)
    ensures var p := MakePoint(o, measured, other); var z := MakeSize(o, measured, other);
      p.x == z.width && p.y == z.height
  {
    match o
    case Row =>
    case Column =>
  }

  /** `GridDimension`: how a child's length along the measured axis is
      found. */
  datatype GridDimension = FitContent | Fractional(weight: U8) | Measured(size: Dimension)

  /** `StackLayout` without its baselines: where a child starts along the
      measured axis, and its length. */
  datatype StackLayout = StackLayout(offset: nat, size: UPx)

  /** How a child is measured: its index, the element and the constraint
      give the size it reports. */
  type Measure = (nat, nat, Size<ConstraintLimit>) -> Size<UPx>

  /** Element `e` of child `index` measured under `c`: the measured and the
      other length. */
  function Lengths(o: Orientation, measure: Measure, index: nat, e: nat, c: Size<ConstraintLimit>): (UPx, UPx)
  {
    SplitSize(o, measure(index, e, c))
  }

  /** The inner loop for a child that fits its content (grid.rs:431-456),
      over its first `n` elements: the largest measured length, and the
      others raised for every element whose measured length is not zero. */
  function FitElements(o: Orientation, measure: Measure, index: nat, c: Size<ConstraintLimit>, others: seq<UPx>, n: nat): (r: (UPx, seq<UPx>))
    requires n <= |others|
    ensures |r.1| == |others|
    decreases n
  {
    if n == 0 then (0, others)
    else
      var (m, os) := FitElements(o, measure, index, c, others, n - 1);
      var (measured, other) := Lengths(o, measure, index, n - 1, c);
      if measured > 0 then (Max(m, measured), os[n - 1 := Max(os[n - 1], other)]) else (m, os)
  }

  /** The length given to a child that fits its content is the largest
      length any of its elements measures, and it is zero or one of them. */
  lemma {:induction false} FitElementsMax(o: Orientation, measure: Measure, index: nat, c: Size<ConstraintLimit>, others: seq<UPx>, n: nat)
    requires n <= |others|
    ensures forall e :: 0 <= e < n ==> Lengths(o, measure, index, e, c).0 <= FitElements(o, measure, index, c, others, n).0
    ensures var m := FitElements(o, measure, index, c, others, n).0;
      m == 0 || exists e :: 0 <= e < n && Lengths(o, measure, index, e, c).0 == m
    decreases n
  {
    if n > 0 {
      FitElementsMax(o, measure, index, c, others, n - 1);
    }
  }

  /** Each element's other length becomes the larger of the old one and
      what the element measures, unless its measured length is zero; the
      elements not yet measured keep theirs. */
  lemma {:induction false} FitElementsOthers(o: Orientation, measure: Measure, index: nat, c: Size<ConstraintLimit>, others: seq<UPx>, n: nat)
    requires n <= |others|
    ensures var os := FitElements(o, measure, index, c, others, n).1;
      forall e :: 0 <= e < |others| ==>
        os[e] == if e < n && Lengths(o, measure, index, e, c).0 > 0 then Max(others[e], Lengths(o, measure, index, e, c).1) else others[e]
    decreases n
  {
    if n > 0 {
      FitElementsOthers(o, measure, index, c, others, n - 1);
    }
  }

  /** The inner loop of the measured and fractional children
      (grid.rs:472-485, 518-530), over the first `n` elements: every
      element's other length is raised to what the child measures there. */
  function OtherElements(o: Orientation, measure: Measure, index: nat, c: Size<ConstraintLimit>, others: seq<UPx>, n: nat): (r: seq<UPx>)
    requires n <= |others|
    ensures |r| == |others|
    decreases n
  {
    if n == 0 then others
    else
      var os := OtherElements(o, measure, index, c, others, n - 1);
      os[n - 1 := Max(os[n - 1], Lengths(o, measure, index, n - 1, c).1)]
  }

  lemma {:induction false} OtherElementsAt(o: Orientation, measure: Measure, index: nat, c: Size<ConstraintLimit>, others: seq<UPx>, n: nat)
    requires n <= |others|
    ensures var os := OtherElements(o, measure, index, c, others, n);
      forall e :: 0 <= e < |others| ==> os[e] == if e < n then Max(others[e], Lengths(o, measure, index, e, c).1) else others[e]
    decreases n
  {
    if n > 0 {
      OtherElementsAt(o, measure, index, c, others, n - 1);
    }
  }

  /** The sequence `s` with `vals[k]` written at `indices[k]`, in order. */
  function Placed<T>(s: seq<T>, indices: seq<nat>, vals: seq<T>): (r: seq<T>)
    requires |vals| <= |indices| && forall k :: 0 <= k < |indices| ==> indices[k] < |s|
    ensures |r| == |s|
    decreases |vals|
  {
    if vals == [] then s
    else Placed(s, indices, vals[..|vals| - 1])[indices[|vals| - 1] := vals[|vals| - 1]]
  }

  /** With no index repeated, every written position holds its value and
      every other position is unchanged. */
  lemma PlacedAt<T>(s: seq<T>, indices: seq<nat>, vals: seq<T>)
    requires |vals| <= |indices| && forall k :: 0 <= k < |indices| ==> indices[k] < |s|
    requires forall i, j :: 0 <= i < j < |indices| ==> indices[i] != indices[j]
    ensures var r := Placed(s, indices, vals);
      (forall k :: 0 <= k < |vals| ==> r[indices[k]] == vals[k])
      && (forall i :: 0 <= i < |s| && i !in indices[..|vals|] ==> r[i] == s[i])
  {
    PlacedWritten(s, indices, vals);
    PlacedUntouched(s, indices, vals);
  }

  lemma {:induction false} PlacedWritten<T>(s: seq<T>, indices: seq<nat>, vals: seq<T>)
    requires |vals| <= |indices| && forall k :: 0 <= k < |indices| ==> indices[k] < |s|
    requires forall i, j :: 0 <= i < j < |indices| ==> indices[i] != indices[j]
    ensures forall k :: 0 <= k < |vals| ==> Placed(s, indices, vals)[indices[k]] == vals[k]
    decreases |vals|
  {
    if vals != [] {
      var n := |vals| - 1;
      PlacedWritten(s, indices, vals[..n]);
      var prev := Placed(s, indices, vals[..n]);
      forall k | 0 <= k < n
        ensures Placed(s, indices, vals)[indices[k]] == vals[k]
      {
        assert indices[k] != indices[n];
        assert prev[indices[k]] == vals[..n][k];
      }
    }
  }

  lemma {:induction false} PlacedUntouched<T>(s: seq<T>, indices: seq<nat>, vals: seq<T>)
    requires |vals| <= |indices| && forall k :: 0 <= k < |indices| ==> indices[k] < |s|
    ensures forall i :: 0 <= i < |s| && i !in indices[..|vals|] ==> Placed(s, indices, vals)[i] == s[i]
    decreases |vals|
  {
    if vals != [] {
      var n := |vals| - 1;
      PlacedUntouched(s, indices, vals[..n]);
      assert indices[..n + 1] == indices[..n] + [indices[n]];
    }
  }

  lemma PlacedSnoc<T>(s: seq<T>, indices: seq<nat>, vals: seq<T>, v: T)
    requires |vals| < |indices| && forall k :: 0 <= k < |indices| ==> indices[k] < |s|
    ensures Placed(s, indices, vals + [v]) == Placed(s, indices, vals)[indices[|vals|] := v]
  {
    assert (vals + [v])[..|vals|] == vals;
  }

  /** The state of the loop over the children that fit their content
      (grid.rs:427-466): the children's lengths, the others, the space
      remaining, whether the next visible child needs a gutter before it,
      and the lengths measured so far in the loop's order. */
  datatype FitState = FitState(sizes: seq<UPx>, others: seq<UPx>, remaining: UPx, requiresGutter: bool, fitted: seq<UPx>)

  /** One turn of that loop, for the child at `index`. */
  function FitStep(o: Orientation, measure: Measure, gutter: UPx, other: ConstraintLimit, s: FitState, index: nat): (r: FitState)
    requires index < |s.sizes|
    ensures |r.sizes| == |s.sizes| && |r.others| == |s.others| && |r.fitted| == |s.fitted| + 1
  {
    var c := MakeSize(o, SizeToFit(SatSub(s.remaining, if s.requiresGutter then gutter else 0)), other);
    var (m, os) := FitElements(o, measure, index, c, s.others, |s.others|);
    var remaining := if m > 0 && s.requiresGutter then SatSub(s.remaining, gutter) else s.remaining;
    FitState(s.sizes[index := m], os, SatSub(remaining, m), s.requiresGutter || m > 0, s.fitted + [m])
  }

  predicate IndicesWithin(indices: seq<nat>, n: nat)
  {
    forall k :: 0 <= k < |indices| ==> indices[k] < n
  }

  /** The loop over the first `n` children that fit their content. */
  function FitPhase(o: Orientation, measure: Measure, gutter: UPx, other: ConstraintLimit, s: FitState, indices: seq<nat>, n: nat): (r: FitState)
    requires n <= |indices| && IndicesWithin(indices, |s.sizes|)
    ensures |r.sizes| == |s.sizes| && |r.others| == |s.others| && |r.fitted| == |s.fitted| + n
    decreases n
  {
    if n == 0 then s
    else FitStep(o, measure, gutter, other, FitPhase(o, measure, gutter, other, s, indices, n - 1), indices[n - 1])
  }

  /** How many of the lengths are not zero. */
  function Visible(ms: seq<UPx>): nat
  {
    if ms == [] then 0 else Visible(ms[..|ms| - 1]) + (if ms[|ms| - 1] > 0 then 1 else 0)
  }

  /** The space taken by children of lengths `ms` in order: their lengths,
      and a gutter before each one that is not zero after the first such. */
  function Spent(ms: seq<UPx>, gutter: nat): nat
  {
    if ms == [] then 0
    else
      var init := ms[..|ms| - 1];
      var m := ms[|ms| - 1];
      Spent(init, gutter) + (if m > 0 && Visible(init) > 0 then gutter else 0) + m
  }

  lemma SatSubTwice(a: nat, b: nat, c: nat)
    ensures SatSub(SatSub(a, b), c) == SatSub(a, b + c)
  {
  }

  /** One turn of the loop in terms of the length `m` it measures: the
      gutter is taken before a visible child once one was seen, then the
      child's length. */
  lemma FitStepFacts(o: Orientation, measure: Measure, gutter: UPx, other: ConstraintLimit, s: FitState, index: nat, r: FitState)
    requires index < |s.sizes| && r == FitStep(o, measure, gutter, other, s, index)
    ensures var m := r.fitted[|s.fitted|];
      r.fitted == s.fitted + [m] && r.sizes == s.sizes[index := m]
      && r.remaining == SatSub(SatSub(s.remaining, if m > 0 && s.requiresGutter then gutter else 0), m)
      && r.requiresGutter == (s.requiresGutter || m > 0)
  {
  }

  /** The space remaining in `r` is what it was in `s` less the lengths of
      the children measured so far and the gutters between the visible ones
      (or zero, once that runs out); a gutter is owed exactly when some
      child was visible. */
  predicate SpentFrom(gutter: UPx, s: FitState, r: FitState)
  {
    r.remaining == SatSub(s.remaining, Spent(r.fitted, gutter))
    && r.requiresGutter == (Visible(r.fitted) > 0)
  }

  /** One turn of the loop keeps that account. */
  lemma FitStepSpends(o: Orientation, measure: Measure, gutter: UPx, other: ConstraintLimit, s: FitState, p: FitState, index: nat, r: FitState)
    requires index < |p.sizes| && r == FitStep(o, measure, gutter, other, p, index)
    requires SpentFrom(gutter, s, p)
    ensures SpentFrom(gutter, s, r)
  {
    FitStepFacts(o, measure, gutter, other, p, index, r);
    var m := r.fitted[|p.fitted|];
    SpentSnoc(p.fitted, m, gutter);
    var g := if m > 0 && p.requiresGutter then gutter else 0;
    SpendStep(s.remaining, Spent(p.fitted, gutter), g, m, p.remaining, r.remaining);
  }

  /** After the loop, starting with nothing measured and no gutter owed,
      the account holds for everything the loop measured. */
  lemma {:induction false} FitPhaseSpends(o: Orientation, measure: Measure, gutter: UPx, other: ConstraintLimit, s: FitState, indices: seq<nat>, n: nat)
    requires n <= |indices| && IndicesWithin(indices, |s.sizes|)
    requires !s.requiresGutter && s.fitted == []
    ensures SpentFrom(gutter, s, FitPhase(o, measure, gutter, other, s, indices, n))
    decreases n
  {
    if n > 0 {
      FitPhaseSpends(o, measure, gutter, other, s, indices, n - 1);
      var p := FitPhase(o, measure, gutter, other, s, indices, n - 1);
      FitStepSpends(o, measure, gutter, other, s, p, indices[n - 1], FitPhase(o, measure, gutter, other, s, indices, n));
    }
  }

  lemma SpendStep(start: nat, spent: nat, g: nat, m: nat, before: nat, after: nat)
    requires before == SatSub(start, spent) && after == SatSub(SatSub(before, g), m)
    ensures after == SatSub(start, spent + g + m)
  {
  }

  lemma SpentSnoc(ms: seq<UPx>, m: UPx, gutter: nat)
    ensures Visible(ms + [m]) == Visible(ms) + (if m > 0 then 1 else 0)
    ensures Spent(ms + [m], gutter) == Spent(ms, gutter) + (if m > 0 && Visible(ms) > 0 then gutter else 0) + m
  {
    assert (ms + [m])[..|ms|] == ms;
  }

  /** After the loop, every child's length is the one the loop measured
      for it, written in the loop's order. */
  lemma {:induction false} FitPhaseSizes(o: Orientation, measure: Measure, gutter: UPx, other: ConstraintLimit, s: FitState, indices: seq<nat>, n: nat)
    requires n <= |indices| && IndicesWithin(indices, |s.sizes|) && s.fitted == []
    ensures var r := FitPhase(o, measure, gutter, other, s, indices, n);
      r.sizes == Placed(s.sizes, indices, r.fitted)
    decreases n
  {
    if n > 0 {
      FitPhaseSizes(o, measure, gutter, other, s, indices, n - 1);
      var p := FitPhase(o, measure, gutter, other, s, indices, n - 1);
      var r := FitPhase(o, measure, gutter, other, s, indices, n);
      FitStepPlaces(o, measure, gutter, other, s, indices, p, r);
    }
  }

  /** One turn of the loop writes the length it measures at its index. */
  lemma FitStepPlaces(o: Orientation, measure: Measure, gutter: UPx, other: ConstraintLimit, s: FitState, indices: seq<nat>, p: FitState, r: FitState)
    requires |p.fitted| < |indices| && IndicesWithin(indices, |s.sizes|) && |p.sizes| == |s.sizes|
    requires r == FitStep(o, measure, gutter, other, p, indices[|p.fitted|])
    requires p.sizes == Placed(s.sizes, indices, p.fitted)
    ensures r.sizes == Placed(s.sizes, indices, r.fitted)
  {
    FitStepFacts(o, measure, gutter, other, p, indices[|p.fitted|], r);
    PlacedSnoc(s.sizes, indices, p.fitted, r.fitted[|p.fitted|]);
  }

  /** The loop over the children whose length is already known
      (grid.rs:469-486), and the second loop over the fractional children
      (grid.rs:515-531), over the first `n` of `indices`: every element's
      other length is raised to what the child measures there when it must
      fill its length. */
  function OthersPhase(o: Orientation, measure: Measure, sizes: seq<UPx>, other: ConstraintLimit, others: seq<UPx>, indices: seq<nat>, n: nat): (r: seq<UPx>)
    requires n <= |indices| && IndicesWithin(indices, |sizes|)
    ensures |r| == |others|
    decreases n
  {
    if n == 0 then others
    else
      var index := indices[n - 1];
      OtherElements(o, measure, index, MakeSize(o, Fill(sizes[index]), other), OthersPhase(o, measure, sizes, other, others, indices, n - 1), |others|)
  }

  /** The other length a child reports for element `e` when it fills its
      own length. */
  function FilledOther(o: Orientation, measure: Measure, sizes: seq<UPx>, other: ConstraintLimit, index: nat, e: nat): UPx
    requires index < |sizes|
  {
    Lengths(o, measure, index, e, MakeSize(o, Fill(sizes[index]), other)).1
  }

  /** After that loop every element's other length is at least what it was
      and at least what each of the children measured reports for it. */
  lemma {:induction false} OthersPhaseCovers(o: Orientation, measure: Measure, sizes: seq<UPx>, other: ConstraintLimit, others: seq<UPx>, indices: seq<nat>, n: nat)
    requires n <= |indices| && IndicesWithin(indices, |sizes|)
    ensures var r := OthersPhase(o, measure, sizes, other, others, indices, n);
      forall e :: 0 <= e < |others| ==> (others[e] <= r[e] && forall k :: 0 <= k < n ==> FilledOther(o, measure, sizes, other, indices[k], e) <= r[e])
    decreases n
  {
    if n > 0 {
      OthersPhaseCovers(o, measure, sizes, other, others, indices, n - 1);
      var index := indices[n - 1];
      var prev := OthersPhase(o, measure, sizes, other, others, indices, n - 1);
      OtherElementsAt(o, measure, index, MakeSize(o, Fill(sizes[index]), other), prev, |others|);
    }
  }

  /** The fractional children's lengths (grid.rs:495-512), over the first
      `k` of their weights: each gets `perWeight` times its weight, and
      while pixels are left over, a child `fromEnd` places from the end
      takes a `fromEnd`-th of them once there are at least as many as
      that. The second part is what is left over. */
  function Spread(perWeight: UPx, left: nat, ws: seq<U8>, k: nat): (r: (seq<nat>, nat))
    requires k <= |ws|
    ensures |r.0| == k && r.1 <= left
    decreases k
  {
    if k == 0 then ([], left)
    else
      var (sizes, rem) := Spread(perWeight, left, ws, k - 1);
      var amount := Leftover(rem, |ws| - (k - 1));
      var size: nat := Times(perWeight, ws[k - 1]) + amount;
      var rest: nat := rem - amount;
      (sizes + [size], rest)
  }

  /** A product of naturals, kept apart so that its sign is settled once. */
  function Times(a: nat, b: nat): (r: nat)
  {
    a * b
  }

  /** What a child `fromEnd` places from the end takes of `rem` leftover
      pixels. */
  function Leftover(rem: nat, fromEnd: nat): (amount: nat)
    requires fromEnd > 0
    ensures amount <= rem
    ensures fromEnd == 1 ==> amount == rem
  {
    if rem > 0 && rem >= fromEnd then Min(rem / fromEnd, rem) else 0
  }

  /** The lengths of the fractional children with weights `ws` sharing
      `remaining`: the whole pixels per weight, then the leftover spread. */
  function FractionalSizes(remaining: UPx, ws: seq<U8>): (r: seq<nat>)
    requires Sum(ws) > 0
    ensures |r| == |ws|
  {
    var perWeight := remaining / Sum(ws);
    Spread(perWeight, remaining - perWeight * Sum(ws), ws, |ws|).0
  }

  lemma MulAdd(a: nat, b: nat, c: nat)
    ensures a * (b + c) == a * b + a * c
  {
  }

  /** Nothing is lost or made: the lengths and what is left over add up to
      the pixels per weight for every weight plus what was left over at
      the start. */
  lemma {:induction false} SpreadConserves(perWeight: UPx, left: nat, ws: seq<U8>, k: nat)
    requires k <= |ws|
    ensures var r := Spread(perWeight, left, ws, k);
      Sum(r.0) + r.1 == perWeight * Sum(ws[..k]) + left
    decreases k
  {
    if k > 0 {
      SpreadConserves(perWeight, left, ws, k - 1);
      var (sizes, rem) := Spread(perWeight, left, ws, k - 1);
      var r := Spread(perWeight, left, ws, k);
      assert r.0[..k - 1] == sizes;
      assert ws[..k][..k - 1] == ws[..k - 1];
      MulAdd(perWeight, Sum(ws[..k - 1]), ws[k - 1]);
    }
  }

  /** Every leftover pixel is handed out: the last child takes whatever is
      still left. */
  lemma SpreadUsesAll(perWeight: UPx, left: nat, ws: seq<U8>)
    requires |ws| > 0
    ensures Spread(perWeight, left, ws, |ws|).1 == 0
  {
    var rem := Spread(perWeight, left, ws, |ws| - 1).1;
    assert rem / 1 == rem;
  }

  /** Each child gets at least its share by weight, and no more than that
      plus what was left over. */
  lemma {:induction false} SpreadBounds(perWeight: UPx, left: nat, ws: seq<U8>, k: nat)
    requires k <= |ws|
    ensures var r := Spread(perWeight, left, ws, k);
      forall i :: 0 <= i < k ==> perWeight * ws[i] <= r.0[i] <= perWeight * ws[i] + left
    decreases k
  {
    if k > 0 {
      SpreadBounds(perWeight, left, ws, k - 1);
      var r := Spread(perWeight, left, ws, k);
      assert r.0[..k - 1] == Spread(perWeight, left, ws, k - 1).0;
    }
  }

  /** The fractional children's lengths add up to exactly the space they
      share. */
  lemma FractionalSizesFill(remaining: UPx, ws: seq<U8>)
    requires Sum(ws) > 0
    ensures Sum(FractionalSizes(remaining, ws)) == remaining
  {
    var perWeight := remaining / Sum(ws);
    DivTimes(remaining, Sum(ws));
    SpreadConserves(perWeight, remaining - perWeight * Sum(ws), ws, |ws|);
    SpreadUsesAll(perWeight, remaining - perWeight * Sum(ws), ws);
    assert ws[..|ws|] == ws;
  }

  /** The weighted lengths of the layout's own wrapping test
      (grid.rs:765-828): weights 2, 1, 1 in 10, 11, 12 and 13 pixels. */
  lemma FractionalSizesWrapping()
    ensures FractionalSizes(10, [2, 1, 1]) == [4, 3, 3]
    ensures FractionalSizes(11, [2, 1, 1]) == [5, 3, 3]
    ensures FractionalSizes(12, [2, 1, 1]) == [6, 3, 3]
    ensures FractionalSizes(13, [2, 1, 1]) == [6, 3, 4]
  {
    var w := [2, 1, 1];
    assert Sum(w) == 4 by { SumCons(2, [1, 1]); SumCons(1, [1]); SumCons(1, []); }
    assert Leftover(2, 3) == 0 && Leftover(2, 2) == 1 && Leftover(3, 3) == 1;
    SpreadThree(2, 2, w, 4, 3, 3);
    SpreadThree(2, 3, w, 5, 3, 3);
    SpreadThree(3, 0, w, 6, 3, 3);
    SpreadThree(3, 1, w, 6, 3, 4);
  }

  /** And of its fixed-size test (grid.rs:830-845): weights 1, 1 in the 8
      pixels a fixed 7 leaves of 15. */
  lemma FractionalSizesBesideFixed()
    ensures FractionalSizes(8, [1, 1]) == [4, 4]
  {
    assert Sum([1, 1]) == 2 by { SumCons(1, [1]); SumCons(1, []); }
    assert Spread(4, 0, [1, 1], 1).0 == [4];
  }

  /** Three children, one step at a time. */
  lemma SpreadThree(perWeight: UPx, left: nat, ws: seq<U8>, a: nat, b: nat, c: nat)
    requires |ws| == 3
    requires a == Times(perWeight, ws[0]) + Leftover(left, 3)
    requires b == Times(perWeight, ws[1]) + Leftover(left - Leftover(left, 3), 2)
    requires c == Times(perWeight, ws[2]) + (left - Leftover(left, 3) - Leftover(left - Leftover(left, 3), 2))
    ensures Spread(perWeight, left, ws, 3).0 == [a, b, c]
  {
    assert Spread(perWeight, left, ws, 1).0 == [a];
    assert Spread(perWeight, left, ws, 2).0 == [a, b];
  }

  /** `GridLayout::total_other`: the others added up, saturating. */
  function TotalOther(others: seq<UPx>): (t: UPx)
  {
    if others == [] then 0 else SatAdd(TotalOther(others[..|others| - 1]), others[|others| - 1])
  }

  /** The saturating total is the true sum capped at `u32::MAX`. */
  lemma {:induction false} TotalOtherIsCappedSum(others: seq<UPx>)
    ensures TotalOther(others) == Min(Sum(others), U32_MAX)
  {
    if others != [] {
      TotalOtherIsCappedSum(others[..|others| - 1]);
    }
  }

  /** Every other length raised by `per`, the first also by `extra`. */
  function Raised(others: seq<UPx>, per: nat, extra: nat): (r: seq<nat>)
    ensures |r| == |others|
    ensures forall k :: 0 <= k < |r| ==> r[k] == others[k] + per + (if k == 0 then extra else 0)
  {
    seq(|others|, k requires 0 <= k < |others| => others[k] + per + (if k == 0 then extra else 0))
  }

  lemma {:induction false} SumRaised(others: seq<UPx>, per: nat, extra: nat)
    requires |others| > 0
    ensures Sum(Raised(others, per, extra)) == Sum(others) + per * |others| + extra
    decreases |others|
  {
    var n := |others| - 1;
    var r := Raised(others, per, extra);
    if n > 0 {
      SumRaised(others[..n], per, extra);
      assert r[..n] == Raised(others[..n], per, extra);
      MulSucc(per, n);
    }
  }

  /** The split of a `Fill` other-constraint as written (grid.rs:534-547):
      the space the others do not take is divided by their count, the
      rounding error going to the first. `None` is the division by zero
      when there are no others at all. */
  function FillOthersAsWritten(others: seq<UPx>, other: ConstraintLimit): (r: Option<(seq<UPx>, UPx)>)
    ensures r.None? <==> other.Fill? && TotalOther(others) < other.px && |others| == 0
  {
    var total := TotalOther(others);
    match other
    case SizeToFit(_) => Some((others, total))
    case Fill(max) =>
      var remaining := SatSub(max, total);
      if remaining == 0 then Some((others, total))
      else if |others| == 0 then None
      else Some(FillSplit(others, max))
  }

  /** The split itself, once there is space to hand out and somewhere to
      put it. */
  function FillSplit(others: seq<UPx>, max: UPx): (r: (seq<UPx>, UPx))
    requires |others| > 0 && TotalOther(others) < max
    ensures |r.0| == |others|
  {
    var (per, roundingError) := Share(max - TotalOther(others), |others|);
    TotalOtherIsCappedSum(others);
    SumRaised(others, per, roundingError);
    ElementsAtMostSum(Raised(others, per, roundingError));
    (Raised(others, per, roundingError), max)
  }

  /** `a` shared among `k`: the share, and the rounding error. */
  function Share(a: nat, k: nat): (r: (nat, nat))
    requires k > 0
    ensures r.0 == a / k && r.0 * k + r.1 == a && r.1 < k
  {
    (a / k, a % k)
  }

  lemma ElementsAtMostSum(s: seq<nat>)
    ensures forall k :: 0 <= k < |s| ==> s[k] <= Sum(s)
  {
    forall k | 0 <= k < |s|
      ensures s[k] <= Sum(s)
    {
      ElementAtMostSum(s, k);
    }
  }

  /** The split as intended: with no others there is nothing to share out,
      and everything stays as it was. */
  function FillOthers(others: seq<UPx>, other: ConstraintLimit): (r: (seq<UPx>, UPx))
    ensures |r.0| == |others| && r.1 == TotalOther(r.0)
    ensures other.Fill? && |others| > 0 ==> r.1 >= other.px
    ensures !other.Fill? || TotalOther(others) >= other.px ==> r == (others, TotalOther(others))
  {
    var total := TotalOther(others);
    if other.Fill? && total < other.px && |others| > 0 then
      FillSplitFills(others, other.px);
      TotalOtherIsCappedSum(FillSplit(others, other.px).0);
      FillSplit(others, other.px)
    else (others, total)
  }

  /** Once split, the others take exactly the space to fill: the first
      gets its share and the rounding error, every other one its share,
      and the share is even up to fewer pixels than there are others. */
  lemma FillSplitFills(others: seq<UPx>, max: UPx)
    requires |others| > 0 && TotalOther(others) < max
    ensures var r := FillSplit(others, max); var per := (max - TotalOther(others)) / |others|;
      Sum(r.0) == max && r.1 == max
      && (forall k :: 0 < k < |others| ==> r.0[k] == others[k] + per)
      && r.0[0] - others[0] - per < |others|
  {
    var (per, roundingError) := Share(max - TotalOther(others), |others|);
    var r := FillSplit(others, max);
    assert r.0 == Raised(others, per, roundingError);
    TotalOtherIsCappedSum(others);
    assert Sum(r.0) == max by {
      SumRaised(others, per, roundingError);
    }
  }

  /** The corrected split agrees with the written one wherever that one
      does not divide by zero. */
  lemma FillOthersAgrees(others: seq<UPx>, other: ConstraintLimit)
    requires FillOthersAsWritten(others, other).Some?
    ensures FillOthersAsWritten(others, other).value == FillOthers(others, other)
  {
  }

  /** The input the written split cannot handle: no others, and a `Fill`
      constraint with room to fill. */
  lemma FillOthersDividesByZero()
    ensures FillOthersAsWritten([], Fill(1)).None?
    ensures FillOthers([], Fill(1)) == ([], 0)
  {
  }

  /** `GridLayout::update_offsets` (grid.rs:577-623) over the first `n`
      children: where each starts along the measured axis, and where the
      last visible one ends. A gutter goes before a visible child once
      something visible came before it. */
  function Offsets(sizes: seq<UPx>, gutter: UPx, n: nat): (r: (seq<nat>, nat))
    requires n <= |sizes|
    ensures |r.0| == n
    decreases n
  {
    if n == 0 then ([], 0)
    else
      var (offsets, offset) := Offsets(sizes, gutter, n - 1);
      var visible := sizes[n - 1] > 0;
      var start := if visible && offset > 0 then offset + gutter else offset;
      (offsets + [start], if visible then start + sizes[n - 1] else start)
  }

  /** One more child placed. */
  lemma OffsetsSnoc(sizes: seq<UPx>, gutter: UPx, i: nat)
    requires i < |sizes|
    ensures var (offsets, end) := Offsets(sizes, gutter, i);
      var start := if sizes[i] > 0 && end > 0 then end + gutter else end;
      Offsets(sizes, gutter, i + 1) == (offsets + [start], if sizes[i] > 0 then start + sizes[i] else start)
  {
  }

  /** The space taken is nothing exactly when nothing is visible. */
  lemma {:induction false} SpentNothing(ms: seq<UPx>, gutter: nat)
    ensures Spent(ms, gutter) == 0 <==> Visible(ms) == 0
  {
    if ms != [] {
      SpentNothing(ms[..|ms| - 1], gutter);
    }
  }

  /** The measured length the layout reports is the space its children
      take: their lengths and a gutter between each two visible ones,
      which is what the measuring loop set aside. */
  lemma {:induction false} OffsetsEnd(sizes: seq<UPx>, gutter: UPx, n: nat)
    requires n <= |sizes|
    ensures Offsets(sizes, gutter, n).1 == Spent(sizes[..n], gutter)
    decreases n
  {
    if n > 0 {
      OffsetsEnd(sizes, gutter, n - 1);
      assert sizes[..n][..n - 1] == sizes[..n - 1];
      SpentNothing(sizes[..n - 1], gutter);
    }
  }

  /** Every child ends by the reported length. */
  lemma {:induction false} OffsetsWithin(sizes: seq<UPx>, gutter: UPx, n: nat)
    requires n <= |sizes|
    ensures var (offsets, end) := Offsets(sizes, gutter, n);
      forall i :: 0 <= i < n ==> offsets[i] + sizes[i] <= end
    decreases n
  {
    if n > 0 {
      OffsetsWithin(sizes, gutter, n - 1);
      var (prev, _) := Offsets(sizes, gutter, n - 1);
      var (offsets, _) := Offsets(sizes, gutter, n);
      assert offsets[..n - 1] == prev;
    }
  }

  /** Children never overlap: each one starts after every earlier one
      ends, with a gutter between two visible ones, and all end by the
      reported length. */
  lemma {:induction false} OffsetsOrdered(sizes: seq<UPx>, gutter: UPx, n: nat)
    requires n <= |sizes|
    ensures var (offsets, end) := Offsets(sizes, gutter, n);
      (forall i :: 0 <= i < n ==> offsets[i] + sizes[i] <= end)
      && (forall i, j :: 0 <= i < j < n ==> offsets[i] + sizes[i] <= offsets[j])
      && (forall i, j :: 0 <= i < j < n && sizes[i] > 0 && sizes[j] > 0 ==> offsets[i] + sizes[i] + gutter <= offsets[j])
    decreases n
  {
    OffsetsWithin(sizes, gutter, n);
    if n > 0 {
      OffsetsOrdered(sizes, gutter, n - 1);
      OffsetsWithin(sizes, gutter, n - 1);
      var (prev, prevEnd) := Offsets(sizes, gutter, n - 1);
      var (offsets, end) := Offsets(sizes, gutter, n);
      var start := offsets[n - 1];
      assert start >= prevEnd && (sizes[n - 1] > 0 && prevEnd > 0 ==> start == prevEnd + gutter);
      forall i, j | 0 <= i < j < n
        ensures offsets[i] + sizes[i] <= offsets[j]
        ensures sizes[i] > 0 && sizes[j] > 0 ==> offsets[i] + sizes[i] + gutter <= offsets[j]
      {
        assert offsets[i] == prev[i] by {
          assert offsets[..n - 1] == prev;
          assert offsets[..n - 1][i] == offsets[i];
        }
        if j < n - 1 {
          assert offsets[j] == prev[j] by {
            assert offsets[..n - 1] == prev;
            assert offsets[..n - 1][j] == offsets[j];
          }
        } else {
          assert prev[i] + sizes[i] <= prevEnd;
        }
      }
    }
  }

  /** Without a gutter the offsets are running sums of the lengths, which
      is what the layout's tests check (grid.rs:716-726). */
  lemma {:induction false} OffsetsWithoutGutter(sizes: seq<UPx>, n: nat)
    requires n <= |sizes|
    ensures var (offsets, end) := Offsets(sizes, 0, n);
      end == Sum(sizes[..n]) && forall i :: 0 <= i < n ==> offsets[i] == Sum(sizes[..i])
    decreases n
  {
    if n > 0 {
      OffsetsWithoutGutter(sizes, n - 1);
      var (prev, _) := Offsets(sizes, 0, n - 1);
      var (offsets, _) := Offsets(sizes, 0, n);
      assert sizes[..n][..n - 1] == sizes[..n - 1];
      forall i | 0 <= i < n - 1
        ensures offsets[i] == prev[i]
      {
        assert offsets[..n - 1][i] == offsets[i];
      }
    }
  }

  /** What `GridLayout::update` computes before placing the children: each
      child's length, each element's other length, and the total other
      length. */
  datatype Measurement = Measurement(sizes: seq<UPx>, others: seq<UPx>, total: UPx)

  /** `elements` zeros: the others once reset. */
  function Zeros(elements: nat): (r: seq<UPx>)
    ensures |r| == elements && forall e :: 0 <= e < elements ==> r[e] == 0
  {
    seq(elements, e => 0)
  }

  /** The space left for the children that fit their content and the
      fractional ones (grid.rs:400-409): the available length less the
      lengths already known and a gutter between each two children that do
      not fit their content. */
  function StartingSpace(available: UPx, gutter: UPx, taken: nat, known: nat): (r: UPx)
    ensures r <= available
    ensures r + taken + Min(gutter * (if known > 0 then known - 1 else 0), U32_MAX) >= available
  {
    var knownGutters := Min(gutter * (if known > 0 then known - 1 else 0), U32_MAX);
    SatSub(available, taken + knownGutters)
  }

  /** The fractional lengths as pixel lengths: they add up to the space
      shared, so none is wider than it. */
  function Shares(left: UPx, weights: seq<U8>): (r: seq<UPx>)
    requires Sum(weights) > 0
    ensures |r| == |weights| && Sum(r) == left
  {
    var fs := FractionalSizes(left, weights);
    FractionalSizesFill(left, weights);
    ElementsAtMostSum(fs);
    fs
  }

  /** The measuring passes of `GridLayout::update` (grid.rs:400-547), given
      the lengths after `update_measured`, the indices of the children that
      fit their content, of the measured ones and of the fractional ones
      with their weights, in the order the layout keeps them, and the
      allocated length (pixels and converted logical pixels together). */
  function UpdateLengths(o: Orientation, measure: Measure, available: Size<ConstraintLimit>, gutter: UPx,
                         sizes: seq<UPx>, elements: nat, fit: seq<nat>, premeasured: seq<nat>,
                         fractional: seq<nat>, weights: seq<U8>, taken: nat): (r: Measurement)
    requires IndicesWithin(fit, |sizes|) && IndicesWithin(premeasured, |sizes|) && IndicesWithin(fractional, |sizes|)
    requires |weights| == |fractional| && |fit| <= |sizes|
    ensures |r.sizes| == |sizes| && |r.others| == elements
    ensures r.total == TotalOther(r.others)
    ensures elements == 1 && SplitSize(o, available).1.Fill? ==> r.total >= SplitSize(o, available).1.px
  {
    var (space, other0) := SplitSize(o, available);
    var other := if elements > 1 then SizeToFit(MaxOf(other0)) else other0;
    var remaining := StartingSpace(MaxOf(space), gutter, taken, |sizes| - |fit|);
    var f := FitPhase(o, measure, gutter, other, FitState(sizes, Zeros(elements), remaining, false, []), fit, |fit|);
    var others := OthersPhase(o, measure, f.sizes, other, f.others, premeasured, |premeasured|);
    var (sizes', others') :=
      if Sum(weights) > 0 then
        var left := if f.requiresGutter then SatSub(f.remaining, gutter) else f.remaining;
        var placed := Placed(f.sizes, fractional, Shares(left, weights));
        (placed, OthersPhase(o, measure, placed, other, others, fractional, |fractional|))
      else (f.sizes, others);
    var (filled, total) := FillOthers(others', other);
    Measurement(sizes', filled, total)
  }

  /** The passes write only the lengths of the children that fit their
      content and of the fractional ones: a measured child keeps whatever
      length its position held. */
  lemma UpdateKeepsUnlisted(o: Orientation, measure: Measure, available: Size<ConstraintLimit>, gutter: UPx,
                            sizes: seq<UPx>, elements: nat, fit: seq<nat>, premeasured: seq<nat>,
                            fractional: seq<nat>, weights: seq<U8>, taken: nat, i: nat)
    requires IndicesWithin(fit, |sizes|) && IndicesWithin(premeasured, |sizes|) && IndicesWithin(fractional, |sizes|)
    requires |weights| == |fractional| && |fit| <= |sizes|
    requires i < |sizes| && i !in fit && i !in fractional
    ensures UpdateLengths(o, measure, available, gutter, sizes, elements, fit, premeasured, fractional, weights, taken).sizes[i] == sizes[i]
  {
    var (space, other0) := SplitSize(o, available);
    var other := if elements > 1 then SizeToFit(MaxOf(other0)) else other0;
    var remaining := StartingSpace(MaxOf(space), gutter, taken, |sizes| - |fit|);
    var s := FitState(sizes, Zeros(elements), remaining, false, []);
    var f := FitPhase(o, measure, gutter, other, s, fit, |fit|);
    FitPhaseSizes(o, measure, gutter, other, s, fit, |fit|);
    assert fit[..|f.fitted|] == fit;
    PlacedUntouched(sizes, fit, f.fitted);
    if Sum(weights) > 0 {
      var left := if f.requiresGutter then SatSub(f.remaining, gutter) else f.remaining;
      var shares := Shares(left, weights);
      assert fractional[..|shares|] == fractional;
      PlacedUntouched(f.sizes, fractional, shares);
    }
  }
}
